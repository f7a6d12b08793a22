/**
  The Kotlin/JVM primitives the app's logic leans on: nullable values, the
  64-bit `Long` and 32-bit `Int` with their two's-complement wrap-around,
  and integer division that rounds toward zero (Dafny's own `/` and `%`
  are Euclidean, so they differ for negative dividends).
 */
module Kotlin {

  /** A nullable value `T?`; `GetOr` is the elvis operator `?:`. */
  datatype Option<+T> = None | Some(value: T) {
    function GetOr(default: T): T {
      match this
      case Some(v) => v
      case None => default
    }
  }

  const LONG_MIN: int := -0x8000_0000_0000_0000
  const LONG_MAX: int := 0x7FFF_FFFF_FFFF_FFFF
  const INT_MIN: int := -0x8000_0000
  const INT_MAX: int := 0x7FFF_FFFF

  type Long = x: int | LONG_MIN <= x <= LONG_MAX
  type Int = x: int | INT_MIN <= x <= INT_MAX

  /** Two's-complement reduction of an exact result into the `Long` range. */
  function WrapLong(x: int): (r: Long)
    ensures LONG_MIN <= x <= LONG_MAX ==> r == x
    ensures (x - r) % 0x1_0000_0000_0000_0000 == 0
  {
    (x - LONG_MIN) % 0x1_0000_0000_0000_0000 + LONG_MIN
  }

  /** Two's-complement reduction of an exact result into the `Int` range. */
  function WrapInt(x: int): (r: Int)
    ensures INT_MIN <= x <= INT_MAX ==> r == x
    ensures (x - r) % 0x1_0000_0000 == 0
  {
    (x - INT_MIN) % 0x1_0000_0000 + INT_MIN
  }

  /** `a + b` on two `Long`s. */
  function LongAdd(a: Long, b: Long): Long {
    WrapLong(a + b)
  }

  /** `a - b` on two `Long`s. */
  function LongSub(a: Long, b: Long): Long {
    WrapLong(a - b)
  }

  /** `p + 1` on an `Int`: `Int.MAX_VALUE + 1` wraps to `Int.MIN_VALUE`. */
  function IntInc(p: Int): Int {
    WrapInt(p + 1)
  }

  /** Kotlin's `a / b` for a positive divisor: the exact quotient rounded toward zero. */
  function Div(a: int, b: int): (q: int)
    requires b > 0
    ensures a >= 0 ==> 0 <= q * b <= a < q * b + b
    ensures a < 0 ==> q * b - b < a <= q * b <= 0
  {
    if a >= 0 then
      EuclidFacts(a, b);
      a / b
    else
      EuclidFacts(-a, b);
      -((-a) / b)
  }

  /** The facts about Euclidean `/` and `%` on a non-negative dividend that the solver needs spelled out. */
  lemma EuclidFacts(a: int, b: int)
    requires a >= 0 && b > 0
    ensures (a / b) * b == a - a % b
    ensures 0 <= a % b < b
    ensures 0 <= (a / b) * b
  {
    assert a == b * (a / b) + a % b;
    assert a / b >= 0;
  }

  /** Kotlin's `a % b` for a positive divisor: the remainder takes the sign of `a`. */
  function Rem(a: int, b: int): (r: int)
    requires b > 0
    ensures a == Div(a, b) * b + r
    ensures a >= 0 ==> 0 <= r < b
    ensures a < 0 ==> -b < r <= 0
  {
    if a >= 0 then a % b else -((-a) % b)
  }
}
