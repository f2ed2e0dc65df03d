/** The byte type shared by the conversions and the bus. */
module Bytes {

  /** A byte as the driver's `byte` (Arduino `uint8_t`) type holds it. */
  type byte = b: int | 0 <= b < 0x100
}
