/**
  Decimal text for integers, as the JVM produces and reads it: `Long.toString`
  (and string templates of a `Long`), `String.format("%02d", n)`, and
  `String.toLongOrNull()`. Only the ASCII digits '0'..'9' are modelled.
 */
module Decimal {
  import opened Kotlin

  predicate IsDigit(c: char) {
    '0' <= c <= '9'
  }

  predicate AllDigits(s: string) {
    forall i :: 0 <= i < |s| ==> IsDigit(s[i])
  }

  function DigitChar(d: nat): (c: char)
    requires d < 10
    ensures IsDigit(c) && DigitValue(c) == d
  {
    (d + '0' as int) as char
  }

  function DigitValue(c: char): nat
    requires IsDigit(c)
  {
    c as int - '0' as int
  }

  /** The value of a string of decimal digits, most significant digit first. */
  function DigitsValue(s: string): nat
    requires AllDigits(s)
    decreases |s|
  {
    if |s| == 0 then 0 else DigitsValue(s[..|s| - 1]) * 10 + DigitValue(s[|s| - 1])
  }

  /** The canonical digits of a natural number: at least one digit and no leading zero. */
  function NatToString(n: nat): (s: string)
    ensures |s| >= 1 && AllDigits(s)
    ensures s[0] == '0' ==> n == 0
    ensures n < 10 <==> |s| == 1
    decreases n
  {
    if n < 10 then [DigitChar(n)] else NatToString(n / 10) + [DigitChar(n % 10)]
  }

  /** Reading back the canonical digits of `n` gives `n`. */
  lemma {:induction false} NatToStringRoundTrip(n: nat)
    ensures DigitsValue(NatToString(n)) == n
    decreases n
  {
    if n >= 10 {
      var s := NatToString(n);
      assert s[..|s| - 1] == NatToString(n / 10);
      NatToStringRoundTrip(n / 10);
    }
  }

  /** `s` is the canonical decimal numeral of `v`: at least one digit, no leading
      zero unless it is the single digit `0`, and the digits read as `v`. */
  predicate IsNumeral(s: string, v: int) {
    && |s| >= 1 && AllDigits(s)
    && (s[0] == '0' ==> |s| == 1)
    && DigitsValue(s) == v
  }

  lemma NatToStringIsNumeral(n: nat)
    ensures IsNumeral(NatToString(n), n)
  {
    NatToStringRoundTrip(n);
  }

  /** A number has exactly one canonical numeral. */
  lemma {:induction false} NumeralUnique(s: string, v: int)
    requires IsNumeral(s, v)
    ensures v >= 0 && s == NatToString(v)
    decreases |s|
  {
    var last := s[|s| - 1];
    var p := s[..|s| - 1];
    assert DigitsValue(s) == DigitsValue(p) * 10 + DigitValue(last);
    if |s| == 1 {
      assert p == [];
      assert s == [DigitChar(v)];
    } else {
      assert AllDigits(p) && p[0] == s[0];
      PrefixValueAtMost(p, 1);
      assert p[..1][..0] == [];
      assert DigitsValue(p[..1]) == DigitValue(p[0]);
      NumeralUnique(p, DigitsValue(p));
      assert v / 10 == DigitsValue(p) && v % 10 == DigitValue(last);
      assert s == p + [DigitChar(v % 10)];
    }
  }

  /** Rendering of a `Long` (or of any integer) by `toString` and string templates:
      the canonical numeral of its magnitude, after a '-' when it is negative. */
  function LongToString(v: int): (s: string)
    ensures |s| >= 1
    ensures v < 0 <==> s[0] == '-'
    ensures v >= 0 ==> IsNumeral(s, v)
    ensures v < 0 ==> IsNumeral(s[1..], -v)
  {
    if v < 0 then
      NatToStringIsNumeral(-v);
      assert ("-" + NatToString(-v))[1..] == NatToString(-v);
      "-" + NatToString(-v)
    else
      NatToStringIsNumeral(v);
      NatToString(v)
  }

  /** `String.format("%02d", n)`: zero-filled to width two; a negative value is
      already two characters wide with its sign, so it is never padded. */
  function Pad2(n: int): (s: string)
    ensures 0 <= n < 100 ==> IsTwoDigits(s, n)
    ensures n < 0 ==> |s| >= 2 && s[0] == '-'
    ensures n < 0 ==> s == LongToString(n)
  {
    if n < 0 then
      "-" + NatToString(-n)
    else if n < 10 then
      TwoDigitsValue(0, n);
      assert NatToString(n) == [DigitChar(n)];
      [DigitChar(0)] + NatToString(n)
    else
      NatToStringRoundTrip(n);
      NatToString(n)
  }

  /** Two digits read as a number below one hundred. */
  lemma TwoDigitsValue(a: nat, b: nat)
    requires a < 10 && b < 10
    ensures AllDigits([DigitChar(a), DigitChar(b)])
    ensures DigitsValue([DigitChar(a), DigitChar(b)]) == 10 * a + b
  {
    var s := [DigitChar(a), DigitChar(b)];
    var first := [DigitChar(a)];
    assert first[..0] == [];
    assert DigitsValue(first) == a;
    assert s[..1] == first;
    assert DigitsValue(s) == DigitsValue(first) * 10 + b;
  }

  /** `s` is two decimal digits reading as `v`. */
  predicate IsTwoDigits(s: string, v: int) {
    |s| == 2 && AllDigits(s) && DigitsValue(s) == v
  }

  lemma TwoDigitsRead(s: string)
    requires |s| == 2 && AllDigits(s)
    ensures DigitsValue(s) == 10 * DigitValue(s[0]) + DigitValue(s[1])
  {
    assert s[..1][..0] == [];
    assert DigitsValue(s[..1]) == DigitValue(s[0]);
  }

  /** Two digits are determined by the number they read as. */
  lemma TwoDigitsUnique(a: string, b: string, v: int)
    requires IsTwoDigits(a, v) && IsTwoDigits(b, v)
    ensures a == b
  {
    TwoDigitsRead(a);
    TwoDigitsRead(b);
    assert a[0] == b[0] && a[1] == b[1];
  }

  /** The text `toLongOrNull` accepts: an optional '-' or '+' followed by at least one digit. */
  predicate IsLongLiteral(s: string) {
    && |s| > 0
    && if s[0] == '-' || s[0] == '+' then |s| > 1 && AllDigits(s[1..]) else AllDigits(s)
  }

  /** The integer a literal denotes, before any range check. */
  function LiteralValue(s: string): int
    requires IsLongLiteral(s)
  {
    if s[0] == '-' then -(DigitsValue(s[1..]) as int)
    else if s[0] == '+' then DigitsValue(s[1..])
    else DigitsValue(s)
  }

  /** What `toLongOrNull` answers: the value of a literal in the `Long` range, and null
      for anything else. */
  function ParseLong(s: string): Option<Long> {
    if IsLongLiteral(s) && LONG_MIN <= LiteralValue(s) <= LONG_MAX then Some(LiteralValue(s)) else None
  }

  /** Every `Long` rendered by `toString` reads back as itself. */
  lemma LongRoundTrip(v: Long)
    ensures IsLongLiteral(LongToString(v))
    ensures ParseLong(LongToString(v)) == Some(v)
  {
    var s := LongToString(v);
    if v < 0 {
      var m: nat := -(v as int);
      assert s[1..] == NatToString(m);
      NatToStringRoundTrip(m);
    } else {
      NatToStringRoundTrip(v);
    }
  }

  /** A digit string's value is at least that of any of its prefixes. */
  lemma {:induction false} PrefixValueAtMost(s: string, k: nat)
    requires AllDigits(s) && k <= |s|
    ensures DigitsValue(s[..k]) <= DigitsValue(s)
    decreases |s|
  {
    if k < |s| {
      var t := s[..|s| - 1];
      assert t[..k] == s[..k];
      PrefixValueAtMost(t, k);
    } else {
      assert s[..k] == s;
    }
  }

  /** Appending one digit multiplies the value by ten and adds the digit. */
  lemma DigitsValueSnoc(s: string, i: nat, j: nat)
    requires i <= j < |s| && AllDigits(s[i..j]) && IsDigit(s[j])
    ensures AllDigits(s[i..j + 1])
    ensures DigitsValue(s[i..j + 1]) == DigitsValue(s[i..j]) * 10 + DigitValue(s[j])
  {
    assert s[i..j + 1][..j - i] == s[i..j];
  }

  /** Once the digits read so far overflow, the whole text is not a `Long`. */
  lemma OverflowIsFinal(s: string, start: nat, i: nat, limit: int)
    requires start <= i < |s| && (start == 0 || start == 1)
    requires start == 1 <==> (s[0] == '-' || s[0] == '+')
    requires limit == (if s[0] == '-' then LONG_MIN else -LONG_MAX)
    requires AllDigits(s[start..i + 1]) && -(DigitsValue(s[start..i + 1]) as int) < limit
    ensures ParseLong(s) == None
  {
    if IsLongLiteral(s) {
      var digits := s[start..];
      assert digits[..i + 1 - start] == s[start..i + 1];
      PrefixValueAtMost(digits, i + 1 - start);
    }
  }

  /** Kotlin's `String.toLongOrNull()` in radix 10, step by step: the value is
      accumulated negatively so that `Long.MIN_VALUE` is reachable, and every
      multiplication is guarded against overflow. */
  method ToLongOrNull(s: string) returns (r: Option<Long>)
    ensures r == ParseLong(s)
  {
    if |s| == 0 {
      return None;
    }
    var start: nat;
    var isNegative: bool;
    var limit: Long;
    var firstChar := s[0];
    if firstChar < '0' {
      if |s| == 1 {
        return None;
      }
      start := 1;
      if firstChar == '-' {
        isNegative := true;
        limit := LONG_MIN;
      } else if firstChar == '+' {
        isNegative := false;
        limit := -LONG_MAX;
      } else {
        return None;
      }
    } else {
      start := 0;
      isNegative := false;
      limit := -LONG_MAX;
    }

    var limitForMaxRadix: Long := Div(-LONG_MAX, 36);
    var limitBeforeMul := limitForMaxRadix;
    var result: Long := 0;
    var i := start;
    while i < |s|
      invariant start <= i <= |s|
      invariant AllDigits(s[start..i])
      invariant result == -(DigitsValue(s[start..i]) as int)
      invariant limit <= result <= 0
      invariant limitBeforeMul == limitForMaxRadix || limitBeforeMul == Div(limit, 10)
    {
      if !IsDigit(s[i]) {
        return None;
      }
      var digit := DigitValue(s[i]);
      DigitsValueSnoc(s, start, i);
      if result < limitBeforeMul {
        if limitBeforeMul == limitForMaxRadix {
          limitBeforeMul := Div(limit, 10);
          if result < limitBeforeMul {
            OverflowIsFinal(s, start, i, limit);
            return None;
          }
        } else {
          OverflowIsFinal(s, start, i, limit);
          return None;
        }
      }
      result := result * 10;
      if result < limit + digit {
        OverflowIsFinal(s, start, i, limit);
        return None;
      }
      result := result - digit;
      i := i + 1;
    }
    assert s[start..i] == s[start..];
    return if isNegative then Some(result) else Some(-result);
  }
}
