/** Value types shared by the HS300x driver model: the C integer widths the
    driver uses, the driver's configuration, and what the bus hands back. */
module HS300xTypes {

  const U8Limit: nat := 0x100
  const U16Limit: nat := 0x1_0000
  const U32Limit: nat := 0x1_0000_0000

  /** `std::uint8_t`: one byte on the wire. */
  type byte = x: nat | x < U8Limit
  /** `std::uint16_t`: a raw fraction. */
  type u16 = x: nat | x < U16Limit
  /** `std::uint32_t`: milliseconds, delays and `millis()` readings. Wrap-around
      is written out where the driver relies on it (see `Measurement.Elapsed`). */
  type u32 = x: nat | x < U32Limit
  /** `std::int8_t`: the configured device address (negative means "not configured"). */
  newtype i8 = x: int | -128 <= x < 128

  datatype Option<T> = None | Some(value: T)

  /** The parts of a `cHS300x` instance that influence behaviour: its 7-bit
      address and the two protocol constants (conversion delay and polling
      budget). The debug flag only gates diagnostics and is not modelled. */
  datatype Driver = Driver(address: i8, measurementDelayMs: u32, timeoutMs: u32)

  /** What the bus transport does for one read transaction: the count that
      `requestFrom` reports and the bytes that `available()`/`read()` then
      deliver, in order. */
  datatype BusReply = BusReply(granted: byte, bytes: seq<byte>)

  /** A pair of raw 16-bit fractions as the driver returns them. */
  datatype RawReading = RawReading(tfrac: u16, rhfrac: u16)
}
