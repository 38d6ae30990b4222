/** Java's fixed-width integers and its truncating division, written out over
    Dafny's unbounded `int`. Every place where the Coptic date code can overflow
    an `int` or a `long`, or divides a possibly negative number, goes through
    one of these. */
module JavaMath {

  const INT_MIN: int := -0x8000_0000
  const INT_MAX: int := 0x7fff_ffff
  const LONG_MIN: int := -0x8000_0000_0000_0000
  const LONG_MAX: int := 0x7fff_ffff_ffff_ffff

  predicate IsInt32(x: int) { INT_MIN <= x <= INT_MAX }
  predicate IsInt64(x: int) { LONG_MIN <= x <= LONG_MAX }

  /** A value of Java type `int`. */
  type Int32 = x: int | -0x8000_0000 <= x <= 0x7fff_ffff
  /** A value of Java type `long`. */
  type Int64 = x: int | -0x8000_0000_0000_0000 <= x <= 0x7fff_ffff_ffff_ffff

  /** Two's-complement narrowing to 32 bits: the `(int)` cast of a `long`, and
      the result of `int` arithmetic whose exact value is `x`: the `int`
      congruent to `x` modulo 2^32. */
  function Wrap32(x: int): (r: Int32)
    ensures IsInt32(x) ==> r == x
  {
    if IsInt32(x) then x else (x - INT_MIN) % 0x1_0000_0000 + INT_MIN
  }

  /** Two's-complement narrowing to 64 bits: the result of `long` arithmetic
      whose exact value is `x`, the `long` congruent to `x` modulo 2^64. */
  function Wrap64(x: int): (r: Int64)
    ensures IsInt64(x) ==> r == x
  {
    if IsInt64(x) then x else (x - LONG_MIN) % 0x1_0000_0000_0000_0000 + LONG_MIN
  }

  /** Java's `a / b` for a positive divisor: the quotient rounded toward zero,
      so that the remainder `a - q * b` is smaller than `b` in magnitude and
      takes the sign of `a`. */
  function JDiv(a: int, b: int): (q: int)
    requires b > 0
    ensures a >= 0 ==> 0 <= a - q * b < b
    ensures a < 0 ==> -b < a - q * b <= 0
  {
    if a >= 0 then a / b else -((-a) / b)
  }

  /** Java's `a % b` for a positive divisor: the remainder has the sign of `a`,
      and `JDiv(a, b) * b + JMod(a, b) == a`. */
  function JMod(a: int, b: int): (m: int)
    requires b > 0
    ensures a >= 0 ==> 0 <= m < b
    ensures a < 0 ==> -b < m <= 0
    ensures JDiv(a, b) * b + m == a
  {
    if a >= 0 then a % b else -((-a) % b)
  }
}
