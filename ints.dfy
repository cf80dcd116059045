/** The fixed-width integer types the programs use, as ranges of `int`,
    and the I64F64 fixed-point type as its raw count of 2^-64 units. */
module Ints {
  const TWO_64: int := 0x1_0000_0000_0000_0000
  const U64_MAX: int := 0xFFFF_FFFF_FFFF_FFFF
  const I64_MAX: int := 0x7FFF_FFFF_FFFF_FFFF
  const I64_MIN: int := -0x8000_0000_0000_0000
  /** `I64F64::ONE`: 64 fraction bits. */
  const FIXED_ONE: int := TWO_64

  type u64 = x: int | 0 <= x <= 0xFFFF_FFFF_FFFF_FFFF
  type i64 = x: int | -0x8000_0000_0000_0000 <= x <= 0x7FFF_FFFF_FFFF_FFFF
  /** An `I64F64` value, as its raw 128-bit two's complement count of 2^-64. */
  type I64F64 = x: int | -0x8000_0000_0000_0000_0000_0000_0000_0000 <= x <= 0x7FFF_FFFF_FFFF_FFFF_FFFF_FFFF_FFFF_FFFF
}
