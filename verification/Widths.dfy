/** Widths of the integers of the driver. */
module Widths {
  const U16 := 0x1_0000
  const U32 := 0x1_0000_0000

  /** A 16-bit word with one bit for each application group. */
  type GroupBits = s: seq<bool> | |s| == 16 witness seq(16, _ => false)
}
