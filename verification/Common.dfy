/** Definitions shared by several components. */
module Common {

  type u32 = x: int | 0 <= x < 0x1_0000_0000
  type u64 = x: int | 0 <= x < 0x1_0000_0000_0000_0000

  datatype Option<+T> = None | Some(value: T)

  /** The id no image has. */
  const INVALID_IMAGE_ID: nat := 0xFFFF_FFFF
}
