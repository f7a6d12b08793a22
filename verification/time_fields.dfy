/**
  The clock fields both duration formatters extract from a millisecond count
  `t` (a `Long`): `(t / 1000) % 60`, `(t / (1000 * 60)) % 60` and
  `(t / (1000 * 60 * 60)) % 24`, with Kotlin's truncating `/` and `%`.
 */
module TimeFields {
  import opened Kotlin

  const MILLIS_PER_SECOND: int := 1000
  const MILLIS_PER_MINUTE: int := 1000 * 60
  const MILLIS_PER_HOUR: int := 1000 * 60 * 60

  function SecondField(t: int): int {
    Rem(Div(t, MILLIS_PER_SECOND), 60)
  }

  function MinuteField(t: int): int {
    Rem(Div(t, MILLIS_PER_MINUTE), 60)
  }

  function HourField(t: int): int {
    Rem(Div(t, MILLIS_PER_HOUR), 24)
  }

  /** Whole seconds since the last multiple of 24 hours. */
  function SecondOfDay(t: nat): nat {
    (t / 1000) % (24 * 60 * 60)
  }

  /** Whole minutes since the last multiple of 24 hours. */
  function MinuteOfDay(t: nat): nat {
    (t / (1000 * 60)) % (24 * 60)
  }

  /** Dividing by `b` and then by `c` is dividing by `b * c`. */
  lemma DivDiv(a: nat, b: nat, c: nat)
    requires b > 0 && c > 0
    ensures (a / b) / c == a / (b * c)
  {
    var q1, r1 := a / b, a % b;
    var q2, r2 := q1 / c, q1 % c;
    assert a == b * q1 + r1;
    assert q1 == c * q2 + r2;
    var r := b * r2 + r1;
    assert a == (b * c) * q2 + r by {
      calc {
        a;
        b * q1 + r1;
        b * (c * q2 + r2) + r1;
        { assert b * (c * q2 + r2) == b * (c * q2) + b * r2; }
        b * (c * q2) + b * r2 + r1;
        { assert b * (c * q2) == (b * c) * q2; }
        (b * c) * q2 + r;
      }
    }
    assert 0 <= r < b * c by {
      assert b * r2 <= b * (c - 1) by {
        assert b * (c - 1) - b * r2 == b * (c - 1 - r2);
        MulNonNegative(b, c - 1 - r2);
      }
      assert b * (c - 1) == b * c - b;
      MulNonNegative(b, r2);
    }
    DivUnique(a, b * c, q2, r);
  }

  lemma MulNonNegative(x: int, y: int)
    requires x >= 0 && y >= 0
    ensures x * y >= 0
  {
  }

  /** The quotient is the only `q` that leaves a remainder in `[0, d)`. */
  lemma DivUnique(a: nat, d: nat, q: int, r: int)
    requires d > 0 && a == d * q + r && 0 <= r < d
    ensures a / d == q
  {
    var k := q - a / d;
    assert d * k == a % d - r by {
      assert a == d * (a / d) + a % d;
      assert d * k == d * q - d * (a / d);
    }
  }

  /** For a non-negative count the fields are in their clock ranges and together
      spell out the time of day: hours wrap every 24 hours. */
  lemma NonNegativeFields(t: int)
    requires t >= 0
    ensures 0 <= SecondField(t) < 60 && 0 <= MinuteField(t) < 60 && 0 <= HourField(t) < 24
    ensures 3600 * HourField(t) + 60 * MinuteField(t) + SecondField(t) == SecondOfDay(t)
    ensures 60 * HourField(t) + MinuteField(t) == MinuteOfDay(t)
  {
    var x := t / 1000;
    DivDiv(t, 1000, 60);
    DivDiv(t, 1000, 3600);
    DivDiv(x, 60, 60);
    var m := t / 60000;
    DivDiv(m, 60, 24);
    DivDiv(x, 3600, 24);
    assert Div(t, MILLIS_PER_MINUTE) == x / 60;
    assert Div(t, MILLIS_PER_HOUR) == x / 3600;
  }

  /** The range of each field, by the sign of the count. For a negative count (a
      clock that went backwards) every field is zero or negative, so the hour
      field never selects the long form. */
  lemma FieldRanges(t: int)
    ensures t >= 0 ==> 0 <= SecondField(t) < 60 && 0 <= MinuteField(t) < 60 && 0 <= HourField(t) < 24
    ensures t < 0 ==> -60 < SecondField(t) <= 0 && -60 < MinuteField(t) <= 0 && -24 < HourField(t) <= 0
  {
  }
}
