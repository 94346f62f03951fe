# HS300x humidity/temperature driver — Dafny model

A model of the core of MCCI's `cHS300x` driver for the Renesas HS300x
humidity/temperature sensor. The driver triggers a conversion with an empty
two-wire bus transaction, sleeps for the conversion delay, then polls the
sensor for its 4-byte reply until a reply with status `00` arrives or a
millisecond budget is spent. Each accepted reply is unpacked into two raw
16-bit fractions whose low two bits are always clear.

The bus and the clock are replaced by data:

- a `BusReply` is the transport's answer to one read transaction: the count
  `requestFrom` reports and the bytes `available()`/`read()` deliver;
- a `Script` is the environment of one measurement cycle: the trigger's
  end-of-transmission status, the reply to each poll in order, and the
  successive `millis()` readings.

Modules:

- `HS300xTypes` (`types.dfy`): the C integer widths as subset types of
  `nat`, the driver configuration, replies and raw readings.
- `Bits` (`bits.dfy`): C's `&`, `|` and `<<` on unsigned values, defined bit
  by bit, with the mask and disjoint-field facts the decoder needs.
- `Response` (`response.dfy`): status check and unpacking of the 4-byte
  reply, checked against the datasheet's field layout, and its inverse
  (the sensor-side packing).
- `Bus` (`bus.dfy`): `readResponse` and `begin`.
- `Measurement` (`measurement.dfy`): `startMeasurement`,
  `getMeasurementResultsRaw` and the trigger, sleep and poll cycle of
  `getTemperatureHumidityRaw`, with a per-poll description of its outcome
  (`Measured`) that the loop is proved to meet.

The poll loop continues only while `millis() - tStart < timeout`, so
polling stops once the elapsed time is *at least* the budget; the elapsed
time is a 32-bit unsigned difference, so it wraps.

## Model

| member | source | states |
|---|---|---|
| Response.DecodeResponse | src/lib/Catena-HS300x.cpp:129-145 | a reply is accepted exactly when its 2-bit status field is `00`; then humidity is 4 times the 14-bit field (byte 0 bits 5..0, byte 1) and temperature 4 times the 14-bit field (byte 2, byte 3 bits 7..2), both with low two bits clear |
| Response.StatusBits | src/lib/Catena-HS300x.cpp:129-130 | `buf[0] & 0xC0` is zero exactly when the status field is `00` |
| Response.TemperatureBits | src/lib/Catena-HS300x.cpp:143 | `((b2 << 8) \| b3) & 0xFFFC` is four times the 14-bit temperature field |
| Response.HumidityBits | src/lib/Catena-HS300x.cpp:144 | with status `00`, `(b0 << 10) \| (b1 << 2)` is below 2^16, so the 16-bit truncation loses nothing, and it is four times the 14-bit humidity field |
| Response.DecodeEncode | src/lib/Catena-HS300x.cpp:141-145 | every reading with clear low bits, packed as the sensor sends it, decodes back to itself |
| Response.EncodeDecode | src/lib/Catena-HS300x.cpp:141-145 | an accepted reply is the packing of its decoded reading, except for the two ignored low bits of byte 3 |
| Response.StatusAloneRejects | src/lib/Catena-HS300x.cpp:129-138 | a nonzero status field rejects the reply whatever bytes 1 to 3 hold |
| Bus.ReadResponse | src/lib/Catena-HS300x.cpp:150-193 | null buffer, request over 32 bytes or negative address fail without touching the transport or the buffer; otherwise the delivered bytes land at the front of the buffer, the rest is unchanged, and the read succeeds exactly when `nBuf` bytes were delivered, the buffer then holding them in order |
| Bus.GrantedCountIgnored | src/lib/Catena-HS300x.cpp:165-177 | the count `requestFrom` reports never changes the outcome of a read |
| Bus.Begin | src/lib/Catena-HS300x.cpp:20-28 | the probe succeeds exactly when the address is configured and the device delivers two bytes |
| Measurement.StartMeasurement | src/lib/Catena-HS300x.cpp:84-104 | the result is 0 or the conversion delay; with a nonzero delay constant it is 0 exactly when the end-of-transmission status is nonzero |
| Measurement.GetMeasurementResultsRaw | src/lib/Catena-HS300x.cpp:121-148 | succeeds exactly when the address is configured, four bytes arrive and the status is `00`, and then outputs the decoded reply; on failure both outputs keep their previous values |
| Measurement.Elapsed | src/lib/Catena-HS300x.cpp:69-73 | `millis() - tStart` wraps modulo 2^32 when the clock has rolled over |
| Measurement.GetTemperatureHumidityRaw | src/lib/Catena-HS300x.cpp:53-82 | a failed trigger fails with no sleep, no poll and outputs (0,0); otherwise one sleep of the delay, at least one poll, every earlier poll rejected and followed by an in-budget clock reading, success exactly when the last poll is accepted (outputs are its decoded values), failure only with an expired clock reading and outputs (0,0) |
| Measurement.Poll | src/lib/Catena-HS300x.cpp:69-73 | the `do`/`while` loop polls at least once, stops at the first accepted reply with its decoded values, and otherwise stops only at the first clock reading whose 32-bit elapsed time is at least the budget |
| Measurement.WrapAroundExample | src/lib/Catena-HS300x.cpp:69-73 | with the clock rolling over during polling, a stale-reporting device is polled three times and the call fails with (0,0) after the reading 112 ms past the start, against a 100 ms budget |
| Measurement.MeasuredDeterministic | src/lib/Catena-HS300x.cpp:53-82 | that description of the cycle leaves no freedom: two outcomes meeting it are equal |
| Measurement.NoAcceptableReplyTimesOut | src/lib/Catena-HS300x.cpp:69-79 | if no reply is acceptable the call fails with outputs (0,0) after a clock reading past the deadline |
| Measurement.PollsStopAtDeadline | src/lib/Catena-HS300x.cpp:71-73 | polling never continues past the first clock reading at or beyond the budget |
| Measurement.FirstReplyAccepted | src/lib/Catena-HS300x.cpp:71-73 | an acceptable first reply ends the cycle after exactly one poll with its decoded values |
| Measurement.SuccessIsWellFormed | src/lib/Catena-HS300x.cpp:141-145 | a successful cycle returns fractions with their two low bits clear |

## Left out

- `getTemperatureHumidity` (lines 34-51): it only adds the floating-point conversions `rawTtoCelsius`/`rawRHtoPercent` on success and sets both outputs to NaN on failure; the conversions live in the header, which is not part of this model, and floating point is not modelled.
- `getMeasurementResults` (lines 106-119): it only adds the same floating-point conversions on success and leaves both outputs untouched on failure (no NaN); floating point is not modelled.
- Diagnostic printing through `Serial` (gated by the debug flag): output only, never affects control flow; the debug flag is therefore not part of `Driver`.
- `end()` is empty.
- The values of `kMeasurementDelayMs` and `kGetTemperatureTimeoutMs` are defined in the header, which is not part of this model; they are fields of `Driver`.
- `delay()` is recorded (the `delayed` field of the outcome) rather than performed; `millis()` readings and bus replies come from the `Script`.
- Bus.ReadResponse: requires that the transport delivers no more than `nBuf` bytes; the C loop would then write past the end of the buffer, which is undefined behaviour and not modelled.
- Measurement.GetTemperatureHumidityRaw: requires a `Script` whose last clock reading is past the deadline and which has a reply for every possible poll; with a clock that never reaches the deadline the C loop need not terminate, and that case is not modelled.
- The address conversions in `beginTransmission`/`requestFrom` and the `uint8_t` cast of `nBuf` are not modelled: the address is only checked for sign, and requests are at most 32 bytes.
- The shifts in the decoder are modelled at a width of at least 32 bits (`int` on the 32-bit targets the driver runs on); a 16-bit `int` target is not modelled.
