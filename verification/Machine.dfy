/** Fixed-width integers and floating-point values as the source handles them. */
module Machine {

  const I64_MIN: int := -0x8000_0000_0000_0000
  const I64_MAX: int := 0x7FFF_FFFF_FFFF_FFFF
  const TWO_64: int := 0x1_0000_0000_0000_0000

  predicate InI64(x: int) { I64_MIN <= x <= I64_MAX }

  /** The 64-bit two's complement value of `x`: what unchecked arithmetic leaves. */
  function Wrap64(x: int): (r: int)
    ensures InI64(r) && (x - r) % TWO_64 == 0
    ensures InI64(x) ==> r == x
  {
    (x - I64_MIN) % TWO_64 + I64_MIN
  }

  function Clamp64(x: int): int {
    if x < I64_MIN then I64_MIN else if x > I64_MAX then I64_MAX else x
  }

  /** `i64::saturating_mul`. */
  function SaturatingMul(x: int, k: int): int {
    Clamp64(x * k)
  }

  /** Division that truncates towards zero, for a positive divisor. */
  function TruncDiv(x: int, k: int): int
    requires k > 0
  {
    if x >= 0 then x / k else -((-x) / k)
  }

  /** An IEEE value up to its payload: zeros keep their sign. */
  datatype Float = NaN | Inf(negative: bool) | Finite(value: real, negativeZero: bool)
}
