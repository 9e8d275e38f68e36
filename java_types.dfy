/** The Java primitive types the three components work on, as bounded integers. */
module JavaTypes {

  /** A byte, by its unsigned bit pattern; Java's signed value is `b - 256` when `b >= 0x80`. */
  newtype Byte = b: int | 0 <= b < 0x100

  /** Java's `int`. */
  newtype Int32 = v: int | -0x8000_0000 <= v < 0x8000_0000

  /** Java's `long`: the elements of a long buffer. */
  newtype Long = v: int | -0x8000_0000_0000_0000 <= v < 0x8000_0000_0000_0000
}
