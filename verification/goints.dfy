/** Go's fixed-width integer semantics that the formatters depend on:
    the int64 range, truncating division and remainder, the conversion of
    an int64 to uint64, and the conversion of a float64 to int64. */
module GoInts {

  const MinInt64: int := -0x8000_0000_0000_0000
  const MaxInt64: int := 0x7FFF_FFFF_FFFF_FFFF
  const TwoTo64: nat := 0x1_0000_0000_0000_0000

  type Int64 = x: int | MinInt64 <= x <= MaxInt64

  /** A float64 value whose conversion to int64 is defined: finite and
      strictly inside (-2^63 - 1, 2^63). */
  type ConvertibleReal = x: real | MinInt64 as real - 1.0 < x < MaxInt64 as real + 1.0

  /** Go's `a / d` for d > 0: the quotient truncated toward zero. */
  function Quot(a: int, d: int): int
    requires d > 0
  {
    if a >= 0 then a / d else -((-a) / d)
  }

  /** Go's `a % d` for d > 0: the remainder takes the sign of `a`, and
      together with Quot it reassembles `a`. */
  function Rem(a: int, d: int): (r: int)
    requires d > 0
    ensures Quot(a, d) * d + r == a
    ensures a >= 0 ==> 0 <= r < d
    ensures a < 0 ==> -d < r <= 0
  {
    if a >= 0 then a % d else -((-a) % d)
  }

  /** Go's `uint64(x)` for an int64: the two's-complement reinterpretation. */
  function Uint64Of(x: Int64): (u: nat)
    ensures u < TwoTo64
    ensures (u - x) % TwoTo64 == 0
    ensures x >= 0 ==> u == x
  {
    if x >= 0 then x else x + TwoTo64
  }

  /** Go's `int64(f)`: the fraction is discarded, rounding toward zero. */
  function Trunc(x: ConvertibleReal): (i: Int64)
    ensures 0.0 <= x ==> 0 <= i && i as real <= x < i as real + 1.0
    ensures x < 0.0 ==> i <= 0 && i as real - 1.0 < x <= i as real
  {
    var magnitude: real := if x >= 0.0 then x as real else 0.0 - x as real;
    if x >= 0.0 then magnitude.Floor else -magnitude.Floor
  }
}
