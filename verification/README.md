# SI7021 driver model

A Dafny model of the Arduino driver for the Si7021 humidity and temperature
sensor (`SI7021.cpp`). The driver sends fixed command bytes to the sensor at
I2C address 0x40. It reads back 2 to 8 response bytes and turns the raw
16-bit readings into hundredths of a degree Celsius, percent relative
humidity and humidity basis points (hundredths of a percent).

The project has four modules:

- `Bytes` (`bytes.dfy`) holds the `byte` type the others share.
- `Conversions` (`conversions.dfy`) holds the raw-value assembly and the
  three datasheet linearisations. They are computed as the C code computes
  them: on a 32-bit `long`, with `>> 16` as floor division by 65536, and
  returned through `unsigned int` where the source does so.
- `TwoWire` (`twowire.dfy`) holds the bus. It is a trace of events
  (`BusBegin`, `Transmission(cells)`, `Request(count)`) plus the bytes the
  sensor has yet to send, consumed in order by reads.
- `Si7021` (`si7021.dfy`) holds the command table, `_writeReg`, `_readReg`
  and `_command`, and every accessor. Each accessor is a method that takes
  the bus state and returns the new one.

Two details of the compiler target shape the driver's behaviour, and the
model makes both parameters (`Platform`):

- the size of a `byte *`, which `_command` uses as both its write and its
  read length;
- the width of `unsigned int`, which decides where a negative humidity wraps.

The model keeps three latent defects of the code as written and proves where
they show:

- `_writeReg` advances its pointer by the loop counter (`reg += i`), so
  iteration i sends the byte at offset 0 + 1 + ... + i (`Tri(i)`). For
  lengths up to 2 within the array this is the array's prefix; the calls
  at SI7021.cpp:101, 104, 116, 123 and 148 pass two-byte arrays and are
  sent intact. From length 3 on it is not, which `_command` reaches on
  targets with 4- or 8-byte pointers (SI7021.cpp:75).
- `_command` takes `sizeof` of its pointer parameters. It therefore writes
  and reads the pointer width, not the command's length. Every measurement
  command is one byte long, so on every real target the second byte written
  is fetched from past the end of the command array. The model records such
  a byte as `Beyond(array, offset)`, whose value it leaves unspecified.
- A humidity below the formula's zero (raw reading at most 3145) is
  returned through `unsigned int` and wraps to a value above every valid
  reading.

At raw 0x7A64 the Celsius formula gives 3715 hundredths of a degree; at raw
0x6E90 the signed humidity formulas give 47 percent and 4798 basis points.
`WorkedExamples` states them.

## Model

| member | source | states |
|---|---|---|
| Conversions.RawFromBytes | SI7021.cpp:48 | The raw reading is a 16-bit value whose high byte is the first byte received and whose low byte is the second. |
| Conversions.RawRoundTrip | SI7021.cpp:48 | A raw value sent big-endian by the sensor and assembled by the driver comes back unchanged. |
| Conversions.RawFromBytesInjective | SI7021.cpp:48 | Distinct byte pairs assemble to distinct raw values. |
| Conversions.ShiftOrIsAdd | SI7021.cpp:48 | On 16-bit words, shifting a byte left by 8 and or-ing in another byte equals multiplying by 256 and adding, so the or-based assembly is an addition. |
| Conversions.Long | SI7021.cpp:48-49 | A 32-bit `long` holds the mathematical result when it is in [-2^31, 2^31). Outside that range C leaves signed overflow undefined; the model's wrap modulo 2^32 there is its own choice and never applies (see `ProductsFitInLong`). |
| Conversions.ToUnsigned | SI7021.cpp:60-64 | Conversion to `unsigned int` leaves in-range values alone and adds 2^width to negative ones down to -2^width, a range that holds every value the driver converts. |
| Conversions.CelsiusHundredths | SI7021.cpp:49 | The temperature lies in [-4685, 12886] and is the floor of 17572 * raw / 65536, minus 4685. |
| Conversions.SignedHumidityPercent | SI7021.cpp:64 | The humidity percent before the unsigned return lies in [-6, 118] and is the floor of 125 * raw / 65536, minus 6. |
| Conversions.SignedHumidityBasisPoints | SI7021.cpp:71 | The basis points before the unsigned return lie in [-600, 11899] and are the floor of 12500 * raw / 65536, minus 600. |
| Conversions.HumidityPercent | SI7021.cpp:60-65 | getHumidityPercent's value equals the signed percent when that is non-negative, and the signed percent plus 2^width otherwise. |
| Conversions.HumidityBasisPoints | SI7021.cpp:67-72 | getHumidityBasisPoints's value equals the signed basis points when non-negative, and the signed basis points plus 2^width otherwise. |
| Conversions.ProductsFitInLong | SI7021.cpp:48-49 | None of the products 17572 * raw, 12500 * raw and 125 * raw overflows a 32-bit `long`; the largest is 1151581020. |
| Conversions.CelsiusRange | SI7021.cpp:45-50 | The Celsius result reaches -4685 at raw 0 and 12886 at raw 0xFFFF, and always fits a 16-bit `int`. |
| Conversions.CelsiusMonotone | SI7021.cpp:49 | A larger raw reading never gives a lower temperature. |
| Conversions.HumidityMonotone | SI7021.cpp:60-72 | The signed humidity formulas, before the unsigned return, never decrease as the raw reading grows, on either scale. The returned values do not share this (see `UnsignedHumidityDrops`). |
| Conversions.HumidityNegativeIff | SI7021.cpp:60-72 | Both humidity formulas are negative exactly when the raw reading is at most 3145. |
| Conversions.UnsignedHumidityWrapsIff | SI7021.cpp:60-72 | The unsigned humidity the caller receives lies in the physical range exactly when the raw reading is above 3145, and only then do the returned percent and basis points agree (percent + 6 == (basis points + 600) div 100). |
| Conversions.UnsignedHumidityDrops | SI7021.cpp:60-72 | Between raw 3145 and 3146 both returned humidity values fall from 2^width - 1 to 0, so the value getHumidityPercent and getHumidityBasisPoints return is not monotone in the raw reading. |
| Conversions.PercentMatchesBasisPoints | SI7021.cpp:64-71 | For every raw reading, the signed formulas before the unsigned return agree: signed percent + 6 equals (signed basis points + 600) div 100, and the signed basis points lie within [100 * percent, 100 * percent + 100). The returned unsigned values agree only when raw is above 3145 (`UnsignedHumidityWrapsIff`). |
| Conversions.WorkedExamples | SI7021.cpp:45-72 | Values of the signed formulas, before any unsigned return: raw 0 gives -6 percent without special-casing; raw 0x7A64 gives 3715 hundredths of a degree; raw 0x6E90 gives 47 percent and 4798 basis points. |
| Si7021.TriClosedForm | SI7021.cpp:81-83 | After iteration i the pointer of `_writeReg` has moved i * (i + 1) / 2 bytes. |
| Si7021.TriExceedsIndex | SI7021.cpp:81-83 | From iteration 2 on, the pointer is ahead of the loop counter. |
| Si7021.TriMonotone | SI7021.cpp:81-83 | The pointer never moves backwards. |
| Si7021.WriteReg | SI7021.cpp:79-86 | `_writeReg` makes one transmission of exactly `reglen` bytes, byte i being the one at offset i * (i + 1) / 2, and consumes no response bytes. |
| Si7021.InBoundsIffAllKnown | SI7021.cpp:79-86 | Every byte `_writeReg` sends lies inside the array exactly when its last offset does. |
| Si7021.WriteRegOffsetsIff | SI7021.cpp:79-86 | Byte i is fetched from offset i, for every i below `reglen`, exactly when `reglen` is at most 2; from 3 on the offsets run ahead of the indices. Whether the offsets lie inside the array is left to `InBoundsIffAllKnown` and `ShortWriteRegSendsPrefix`. |
| Si7021.ShortWriteRegSendsPrefix | SI7021.cpp:79-86 | For `reglen` at most 2 within the array, the transmission is the array's first `reglen` bytes. |
| Si7021.LongWriteRegOverruns | SI7021.cpp:79-86 | Writing a whole array of 3 or more bytes sends, as its last byte, one fetched past the array's end. |
| Si7021.ReadReg | SI7021.cpp:88-96 | `_readReg` issues one request for `reglen` bytes and returns the next `reglen` bytes the sensor sends, in order. |
| Si7021.Command | SI7021.cpp:74-77 | `_command` writes and reads exactly the pointer width, whatever the command's length. |
| Si7021.OneByteCommandOverruns | SI7021.cpp:74-77 | A one-byte command stays inside its array only for one-byte pointers; on every real target the second byte sent comes from past its end. |
| Si7021.ReadRaw | SI7021.cpp:46-48 | A measurement transaction yields the raw value assembled from the first two response bytes. |
| Si7021.GetCelsiusHundredths | SI7021.cpp:45-50 | getCelsiusHundredths issues the TEMP_READ transaction and returns the Celsius formula of its reading, which lies in [-4685, 12886] by the contract of `CelsiusHundredths`. |
| Si7021.GetCelsiusPostHumidity | SI7021.cpp:52-57 | `_getCelsiusPostHumidity` issues the POST_RH_TEMP_READ transaction and applies the same Celsius formula. |
| Si7021.GetHumidityPercent | SI7021.cpp:60-65 | getHumidityPercent issues the RH_READ transaction; its result is at most 118 exactly when the raw reading is above 3145. |
| Si7021.GetHumidityBasisPoints | SI7021.cpp:67-72 | getHumidityBasisPoints issues the RH_READ transaction; its result is at most 11899 exactly when the raw reading is above 3145. |
| Si7021.GetHumidityAndTemperature | SI7021.cpp:152-158 | getHumidityAndTemperature makes the humidity transaction and then the post-humidity temperature transaction, reading the two responses in that order. Its fields are the basis-point formula of the first reading and the same Celsius formula as getCelsiusHundredths applied to the second, stored in an `unsigned int` field, so a temperature below zero wraps by 2^width. |
| Si7021.HumidityAndTemperatureEventsShape | SI7021.cpp:152-158 | Those transactions are exactly two transmissions, RH_READ (0xE5) first and POST_RH_TEMP_READ (0xE0) second, and neither has TEMP_READ's opcode 0xE3 as its first (command) byte. |
| Si7021.SelectSerial | SI7021.cpp:115-128 | The serial number is the even-position bytes of the 8-byte response, then bytes 0, 1, 3 and 4 of the 6-byte response. |
| Si7021.SerialRoundTrip | SI7021.cpp:113-131 | Decoding the two responses that carry a serial number gives it back, whatever the CRC bytes are. |
| Si7021.SerialResponsesComplete | SI7021.cpp:113-131 | Every pair of responses is the encoding of the serial number it decodes to, with the CRC bytes at the skipped positions. |
| Si7021.GetEightByteSerial | SI7021.cpp:113-131 | getEightByteSerial sends both two-byte serial commands intact, reads 8 then 6 bytes, returns 1, and yields the selected serial number. |
| Si7021.GetDeviceId | SI7021.cpp:133-138 | getDeviceId returns the first byte of the second serial response, which is byte 4 (SNB_3) of any serial number those responses encode. |
| Si7021.HeaterByte | SI7021.cpp:141-146 | The two user register values agree on every bit but bit 2, which is set exactly when the heater is on. |
| Si7021.SetHeater | SI7021.cpp:140-149 | setHeater makes one two-byte write, 0xE6 then the register value, and reads nothing, so the register is overwritten without reading it first. |
| Si7021.Begin | SI7021.cpp:27-34 | begin starts the bus and probes the address. The flag becomes set when the probe is acknowledged, is never cleared, and is returned. |
| Si7021.FlagAfterProbesIff | SI7021.cpp:22-38 | After any run of begin calls, the flag that sensorExists reports is set exactly when it was set before or some probe was acknowledged. |
| Si7021.SensorExistsAfterProbes | SI7021.cpp:22-38 | Starting from the initial `_si_exists = false`, sensorExists reports true after a run of begin calls exactly when one of their probes was acknowledged. |

## Left out

- The `Wire`/`TinyWireM` peripheral library is foreign code. It is replaced by the event trace and the queue of bytes the sensor will send. The bus address 0x40 is fixed and not recorded in the events. `endTransmission`'s status is a parameter of `Begin` and is ignored elsewhere, as in the code.
- The busy wait in `_readReg` has no timeout. The model replaces it with a precondition that the sensor has enough bytes to send.
- The Fahrenheit conversions (`getFahrenheitHundredths` and the `fahrenheitHundredths` field of `getHumidityAndTemperature`) multiply by the floating-point constant 1.8, which this integer model does not express. `Env` therefore has no Fahrenheit field. In `getFahrenheitHundredths` the Celsius value also passes through an `unsigned int` first, so a negative temperature would enter the multiplication wrapped.
- The deprecated `getSerialBytes` is a plain copy of two 6-byte reads and is not modelled.
- CRC bytes of the serial responses are never checked by the code and are not checked here.
- The values of bytes fetched past the end of a command array depend on the linker's layout. They appear only as `Beyond(array, offset)`, which names the array they were fetched through; two such cells are equal only when fetched through equal arrays at equal offsets, and the model says nothing about the bytes' values. A `Beyond` cell must never be compared with a `Known` cell as a byte value: the byte actually sent could equal any known byte (with the arrays laid out in declaration order, the byte after `RH_READ` would be 0xE3). Accordingly, `HumidityAndTemperatureEventsShape`'s "never TEMP_READ" is about each transmission's first byte, the command byte, only.
- The response bytes that `_command` stores past its two-byte buffer when pointers are wider than 2 bytes overwrite memory, which is not modelled. `Command` returns all of them and the accessors use the first two.
- `Platform.Valid` requires pointers of at least 2 bytes. With 1-byte pointers the second byte of the measurement buffer would be left uninitialised, and no Arduino target has them.
- `_writeReg` and `_readReg` take an `int` length. The model takes a `nat`, since every call site passes a positive `sizeof` or constant.
- `_readReg` and `getEightByteSerial` return a constant 1. Only `GetEightByteSerial` models it; every caller of `_readReg` ignores it.
- `SensorExists` returns the flag unchanged, so it has no contract of its own. Its behaviour is stated by `SensorExistsAfterProbes`.
- The header `SI7021.h` disagrees with the `.cpp`. It names the record field `humidityPercent` where the `.cpp` writes `humidityBasisPoints`, and it declares the Celsius accessors `unsigned int` where the `.cpp` defines them as `int`. The model follows the `.cpp` for the accessors, so `GetCelsiusHundredths` returns a signed value.
- GetHumidityAndTemperature: the `.cpp` never declares `si7021_env`, and the header that matches it is not available. The model takes the field types from `SI7021.h`, where every field is `unsigned int`, so `Env.celsiusHundredths` wraps below zero.
- The `RESET` and `USER1_READ` commands are declared but never sent by the code. They appear only in the command table.
