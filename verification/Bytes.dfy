module Bytes {
  type Byte = b: int | 0 <= b < 256

  /** The number of values of a 32-bit word. */
  const WORD := 0x1_0000_0000
}
