/** Byte-level vocabulary shared by both drivers. */
module Bytes {

  /** An unsigned 8-bit value, the drivers' `u8`. */
  type uint8 = x: int | 0 <= x < 0x100
}
