/** Fixed-width integers of the Rust source. */
module Ints {

  const U64_LIMIT: int := 0x1_0000_0000_0000_0000
  /** `u64::MAX` */
  const U64_MAX: int := U64_LIMIT - 1

  type u64 = x: int | 0 <= x < U64_LIMIT

  type byte = x: int | 0 <= x < 256

  /** `x as u64` for a signed 64-bit value: two's-complement reinterpretation. */
  function AsU64(x: int): (r: u64)
    requires -0x8000_0000_0000_0000 <= x < 0x8000_0000_0000_0000
    ensures 0 <= x ==> r == x
    ensures x < 0 ==> r == x + U64_LIMIT && r > 0x7FFF_FFFF_FFFF_FFFF
  {
    if x < 0 then x + U64_LIMIT else x
  }
}
