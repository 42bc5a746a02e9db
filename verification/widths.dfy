/** The fixed integer widths of the host's identifiers, durations and addresses. */
module Widths {
  const MaxU32: nat := 0xFFFF_FFFF

  /** An unsigned 8-bit value: one byte of a hardware id. */
  type u8 = x: int | 0 <= x <= 0xFF
  /** An unsigned 32-bit value: an IPv4 address or a ban duration in seconds. */
  type u32 = x: int | 0 <= x <= 0xFFFF_FFFF
  /** An unsigned 64-bit value: a Steam id or an admin id. */
  type u64 = x: int | 0 <= x <= 0xFFFF_FFFF_FFFF_FFFF
}
