/** Machine integers, big-endian words and optional values. */
module Basics {
  datatype Option<+T> = None | Some(value: T)

  type byte = x: int | 0 <= x < 0x100
  type word = x: int | 0 <= x < 0x1_0000
  type u32 = x: int | 0 <= x < 0x1_0000_0000

  /** rd16. */
  function Be16(hi: byte, lo: byte): word { (hi as int) * 256 + lo }
}
