/** Fixed-width unsigned integers of the emulator, with wrap-around written out. */
module Machine {
  type u8 = x: int | 0 <= x < 0x100
  type u32 = x: int | 0 <= x < 0x1_0000_0000
  type u64 = x: int | 0 <= x < 0x1_0000_0000_0000_0000

  function Wrap32(x: int): u32 {
    if 0 <= x < 0x1_0000_0000 then x else x % 0x1_0000_0000
  }

  function Wrap64(x: int): u64 {
    if 0 <= x < 0x1_0000_0000_0000_0000 then x else x % 0x1_0000_0000_0000_0000
  }

  /** What is left of a number in a byte. */
  function Byte(x: int): u8 {
    x % 256
  }

  lemma ByteLaws(a: int, b: int)
    ensures Byte((Byte(a) as int) + b) == Byte(a + b) && Byte(0 - (Byte(a) as int)) == Byte(0 - a) && Byte(0) == 0
  {
  }
}
