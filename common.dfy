/** Machine types, result codes and fixed bus commands of the DHT20 driver. */
module Common {

  /** An unsigned 8-bit value as the driver stores it (`uint8_t`). */
  type byte = bv8

  /** The driver's `uint8_t` used as a count. */
  type uint8 = x: int | 0 <= x < 0x100

  /** The driver's `uint32_t`, used for millisecond timestamps. */
  type uint32 = x: int | 0 <= x < 0x1_0000_0000

  const TWO_TO_32: int := 0x1_0000_0000

  /** Subtraction of two `uint32_t` values, which wraps around modulo 2^32. */
  function Sub32(a: uint32, b: uint32): (d: uint32)
  {
    (a - b) % TWO_TO_32
  }

  /** The result codes the driver returns. */
  datatype Code =
    | Ok
    | ErrorChecksum
    | ErrorConnect
    | MissingBytes
    | ErrorBytesAllZero
    | ReadTimeout
    | ErrorLastRead
    | ErrorNoReset
    | ErrorBusy
  {
    /** The integer the C interface returns for this code. */
    function Value(): int {
      match this
      case Ok => 0
      case ErrorChecksum => -10
      case ErrorConnect => -11
      case MissingBytes => -12
      case ErrorBytesAllZero => -13
      case ReadTimeout => -14
      case ErrorLastRead => -15
      case ErrorNoReset => -16
      case ErrorBusy => -17
    }
  }

  /** 7-bit bus address of the sensor. */
  const ADDRESS: int := 0x38

  /** The three calibration-reset commands and the measurement trigger. */
  const RST_MSG_1: seq<byte> := [0x1B, 0x00, 0x00]
  const RST_MSG_2: seq<byte> := [0x1C, 0x00, 0x00]
  const RST_MSG_3: seq<byte> := [0x1E, 0x00, 0x00]
  const TRIGGER_MEASUREMENT: seq<byte> := [0xAC, 0x33, 0x00]
}
