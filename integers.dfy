/** Fixed-width Rust integers, as ranges of unbounded integers. */
module Integers {
  import opened Wrappers

  const U8_MAX: int := 0xFF
  const U16_MAX: int := 0xFFFF
  const I32_MIN: int := -0x8000_0000
  const I32_MAX: int := 0x7FFF_FFFF

  type u8 = x: int | 0 <= x <= U8_MAX
  type u16 = x: int | 0 <= x <= U16_MAX
  /** `NonZeroU16`. */
  type NonZeroU16 = x: int | 1 <= x <= U16_MAX witness 1
  type i32 = x: int | I32_MIN <= x <= I32_MAX

  /** `u16::checked_add`: `None` exactly when the sum leaves the `u16` range. */
  function CheckedAddU16(a: u16, b: u16): (r: Option<u16>)
    ensures r.Some? <==> a + b <= U16_MAX
    ensures r.Some? ==> r.value == a + b
  {
    if a + b <= U16_MAX then Some(a + b) else None
  }

  /** Rust's `/` on integers truncates toward zero. */
  function TruncDiv(a: int, b: int): (q: int)
    requires b != 0
    ensures (a >= 0 && b > 0) ==> q == a / b
  {
    if a >= 0 then (if b > 0 then a / b else -(a / -b))
    else (if b > 0 then -(-a / b) else -a / -b)
  }

  /** Rust's `%` on integers takes the sign of the dividend. */
  function TruncRem(a: int, b: int): (r: int)
    requires b != 0
    ensures a == TruncDiv(a, b) * b + r
    ensures (a >= 0 ==> 0 <= r) && (a < 0 ==> r <= 0)
    ensures -(if b < 0 then -b else b) < r < (if b < 0 then -b else b)
  {
    a - TruncDiv(a, b) * b
  }
}
