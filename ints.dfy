/** The fixed-width unsigned integer types of the Rust crate, as ranges of integers. */
module MachineInts {
  /** `u32::MAX`. */
  const U32_MAX: nat := 4294967295

  type U8 = x: int | 0 <= x < 0x100
  type U16 = x: int | 0 <= x < 0x1_0000
  type U32 = x: int | 0 <= x <= 4294967295
  type U64 = x: int | 0 <= x < 0x1_0000_0000_0000_0000
}
