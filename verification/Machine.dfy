/** Fixed-width integers of the 64-bit target, kept as bounded mathematical integers so that
    every wrap-around in the kernel is written out where it happens. */
module Machine {
  type u8 = x: int | 0 <= x < 0x100
  type u16 = x: int | 0 <= x < 0x1_0000
  type u32 = x: int | 0 <= x < 0x1_0000_0000
  type u64 = x: int | 0 <= x < 0x1_0000_0000_0000_0000

  /** The value an unsigned 32-bit or 64-bit register holds after an operation with result x. */
  function Wrap32(x: int): u32 {
    x % 0x1_0000_0000
  }

  function Wrap64(x: int): u64 {
    x % 0x1_0000_0000_0000_0000
  }
}
