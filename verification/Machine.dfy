/** The fixed-width values of src/types.h that the models share. */
module Machine {
  const U64_MAX := 0xFFFF_FFFF_FFFF_FFFF

  /** `ut64`: an address. */
  type U64 = x: int | 0 <= x <= U64_MAX

  /** `u8`: one byte of a file. */
  type Byte = x: int | 0 <= x < 256
}
