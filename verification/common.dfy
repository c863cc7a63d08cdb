/** Machine-level value types shared by the kernel probe and the userspace reader. */
module Common {

  /** An unsigned 8-bit value (`__u8` in the probe, `uint8` in Go). */
  type byte = x: int | 0 <= x < 0x100

  /** An unsigned 32-bit value (`__u32` in the probe, `uint32` in Go). */
  type u32 = x: int | 0 <= x < 0x1_0000_0000

  /** Either nothing or a value; stands for a NULL pointer or a Go error return. */
  datatype Option<+T> = None | Some(value: T)

  function Min(a: int, b: int): (m: int)
    ensures m <= a && m <= b
    ensures m == a || m == b
  {
    if a < b then a else b
  }
}
