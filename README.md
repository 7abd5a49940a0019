# DHT20 / AHT20 sensor driver, modelled in Dafny

This project models the core of a Raspberry Pi Pico driver for the Aosong
DHT20/AHT20 humidity and temperature sensor (`DHT20.c`, with the state record
and result codes of `DHT20.h`), and proves properties of that model.

The driver keeps one state record per sensor: the last converted humidity and
temperature, two calibration offsets, the last status byte, the last-read and
last-request timestamps, an update interval, the 7-byte measurement buffer and
the last computed checksum. The record is `Sensor.Dht20`, a class with those
fields; the buffer is a fixed `array<byte>` of length 7.

Modules:

- `Common` (common.dfy): `byte` (`bv8`), `uint8`, `uint32`, the driver's
  32-bit wrap-around subtraction `Sub32`, the result codes with their
  integer values (`DHT20_OK` = 0, `DHT20_ERROR_CHECKSUM` = -10, ...,
  `DHT20_ERROR_BUSY` = -17), and the four fixed 3-byte bus commands.
- `Checksum` (crc.dfy): the CRC-8 of the payload (polynomial 0x31, MSB
  first, initial value 0xFF, no final XOR) as a recursive fold `Crc`, the
  driver's two nested loops `Crc8` proved equal to it, worked values, and
  the proof that any error confined to one byte, in particular any single
  flipped bit, changes the checksum.
- `ByteArith` (bytes.dfy): the byte with a given numeric value (`ByteOf`),
  and the numeric values of a byte's two nibbles.
- `StatusBits` (status.dfy): the status-byte tests `needsReset` (bits 0x18),
  `isCalibrated` (0x08), `isMeasuring` and `isIdle` (0x80).
- `Payload` (payload.dfy): the two 20-bit raw readings packed into bytes 1
  to 5 (byte 3 shared: high nibble humidity, low nibble temperature), proved
  to be a lossless split; the exact scaling to percent and degrees; the
  checksum verdict of `convert`; the verdict of `readMeasurement`.
- `Sensor` (sensor.dfy): the state record as a class with the driver's
  operations as methods, and lemmas about measurement and initialisation.

The bus and the clock are not modelled; the values they would deliver are
parameters. A 7-byte read is a `ReadEvent` (transfer succeeded or not, the
buffer contents afterwards, the millisecond clock the driver would read). A
reset attempt's two status reads are a `ResetPoll`. A write's success is a
`bool`. The current time for the rate guard is a `uint32`. The writes an
operation issues are returned as a sequence of commands.

Behaviour worth knowing, all proved of the model:

- `getMeasurement` never leaves its read loop early: the `continue` after a
  busy read ends the iteration as the body would anyway. Five reads always
  happen and only the fifth decides the result. An accepted read followed by
  four busy reads yields `DHT20_ERROR_BUSY`. The accepted read still stamped
  `lastRead`, so the next measurement is refused for a second
  (`EarlierAcceptedReadIsDiscarded`).
- A first failure is not propagated: an error on read 3 followed by an
  accepted read 5 reports the fifth read's result.
- The CRC of six zero bytes is 0x6A. It is not the initial value 0xFF. So an
  all-zero payload would fail the checksum test too, but `readMeasurement`
  rejects it first (`AllZeroPayloadFailsChecksum`).
- `DHT20_init` zeroes every field except `updateInterval`, the 7 buffer
  bytes included.

Field reads `getHumidity`, `getTemperature`, `getHumOffset`,
`getTempOffset`, `internalStatus`, `lastRead` and `lastRequest` are the
functions `GetHumidity`, `GetTemperature`, `GetHumOffset`, `GetTempOffset`,
`InternalStatus`, `LastRead` and `LastRequest` of `Sensor.Dht20`. The setters'
contracts state what these getters return afterwards.

## Model

| member | source | states |
|---|---|---|
| Checksum.Crc | DHT20.c:223-243 | the reference checksum: a fold over the bytes from 0xFF, each byte XOR-ed into the register and followed by eight shifts; its properties are the lemmas below |
| Checksum.Crc8 | DHT20.c:223-243 | the byte loop with its inner 8-shift loop returns exactly `Crc` of the first `len` bytes of the buffer |
| Checksum.ShiftRegister | DHT20.c:229-240 | the inner loop of `_crc8` leaves the register shifted exactly eight times, each shift XOR-ing 0x31 when the top bit falls out |
| Checksum.CrcKnownValues | DHT20.c:225-242 | the checksum of no bytes is 0xFF, of the byte 0x00 is 0xAC, of six zero bytes is 0x6A |
| Checksum.CrcAppend | DHT20.c:226-241 | extending the input by byte `b` gives eight shift/XOR-0x31 rounds applied to the old checksum XOR `b` |
| Checksum.RoundsInjective | DHT20.c:229-240 | the register shifts lose no information: equal results after `n` rounds mean equal starting registers |
| Checksum.CrcFromDetectsByteError | DHT20.c:223-243 | from any initial value, XOR-ing a non-zero pattern into one byte changes the checksum |
| Checksum.CrcDetectsByteError | DHT20.c:223-243 | the sensor's checksum changes whenever exactly one byte of the input changes |
| Checksum.CrcDetectsBitFlip | DHT20.c:223-243 | flipping any single bit of the input changes the checksum |
| StatusBits.NeedsReset | DHT20.c:16-19 | a reset is needed exactly when the status value's low five bits are below 0x18, that is bits 0x18 are not both set; the top three bits play no part |
| StatusBits.IsCalibrated | DHT20.c:193-196 | calibrated exactly when the status value's low four bits are at least 0x08 |
| StatusBits.IsMeasuring | DHT20.c:198-201 | measuring exactly when the status value is at least 0x80 |
| StatusBits.IsIdle | DHT20.c:203-206 | idle exactly when the status value is below 0x80 |
| StatusBits.IdleIffNotMeasuring | DHT20.c:198-206 | for one status byte, `isIdle` holds exactly when `isMeasuring` does not |
| StatusBits.ReadyImpliesCalibrated | DHT20.c:16-19 | a status needing no reset has the calibration bit 0x08; status 0x08 is calibrated yet still needs a reset |
| Payload.RawHumidity | DHT20.c:104-108 | raw humidity from bytes 1, 2 and the high nibble of 3 is below 2^20 |
| Payload.RawTemperature | DHT20.c:111-115 | raw temperature from the low nibble of byte 3 and bytes 4, 5 is below 2^20 |
| Payload.UnpackEncoded | DHT20.c:104-115 | bytes 1 to 5 that encode two 20-bit values (humidity in bytes 1, 2 and the high nibble of 3; temperature in the low nibble of 3 and bytes 4, 5) unpack to exactly those two values |
| Payload.EncodesUnpacked | DHT20.c:104-115 | every payload is the encoding of the two raw values unpacked from it |
| Payload.RawValuesDetermineBytes | DHT20.c:104-115 | two payloads with the same raw humidity and temperature have identical bytes 1 to 5: the unpacking loses nothing |
| Payload.EncodingExists | DHT20.c:104-115 | every pair of 20-bit values has an encoding in bytes 1 to 5, whatever the status and check bytes |
| Payload.HumidityRange | DHT20.c:109 | every raw humidity scales into [0, 100) percent, raw 0 to exactly 0 |
| Payload.TemperatureRange | DHT20.c:116 | every raw temperature scales into [-50, 150) degrees, the largest to 150 - 200/2^20 |
| Payload.ChecksumVerdict | DHT20.c:118-125 | the reference verdict of `convert`'s checksum test: a checksum error when byte 6 differs from the CRC of bytes 0 to 5, otherwise OK |
| Payload.VerdictOkIffSealed | DHT20.c:118-125 | the checksum test passes exactly when byte 6 is the CRC of bytes 0 to 5 |
| Payload.CorruptedPayloadFails | DHT20.c:118-125 | an intact payload with any one of bytes 0 to 5 corrupted fails the checksum test |
| Payload.ReadVerdict | DHT20.c:68-98 | the reference verdict of one read: connect error, then busy, then all zero, otherwise OK |
| Payload.ReadVerdictCases | DHT20.c:70-97 | a read is accepted iff the transfer succeeded, the busy bit is clear and some byte is non-zero; each error code names the first failing check in the order connect, busy, all zero |
| Payload.AllZeroPayloadFailsChecksum | DHT20.c:81-93 | an all-zero payload, which the read rejects, would also fail the checksum test |
| Sensor.AttemptsMade | DHT20.c:36-46 | initialisation makes 1 to 3 attempts; every attempt before the last left the sensor needing a reset, and stopping before the third means the last one succeeded |
| Sensor.Dht20.constructor | DHT20.h:37-50 | a fresh record with its own 7-byte buffer |
| Sensor.Dht20.GetHumidity | DHT20.c:163-166 | the stored humidity plus the humidity offset |
| Sensor.Dht20.GetTemperature | DHT20.c:168-171 | the stored temperature plus the temperature offset |
| Sensor.Dht20.GetHumOffset | DHT20.c:183-186 | the stored humidity offset |
| Sensor.Dht20.GetTempOffset | DHT20.c:188-191 | the stored temperature offset |
| Sensor.Dht20.InternalStatus | DHT20.c:208-211 | the status byte stored by the last conversion, not a fresh bus read |
| Sensor.Dht20.LastRead | DHT20.c:213-216 | the stored time of the last accepted read |
| Sensor.Dht20.LastRequest | DHT20.c:218-221 | the stored request time |
| Sensor.Dht20.SetHumOffset | DHT20.c:173-176 | sets only the humidity offset; later humidity reads carry it, temperature reads are unchanged |
| Sensor.Dht20.SetTempOffset | DHT20.c:178-181 | sets only the temperature offset; later temperature reads carry it, humidity reads are unchanged |
| Sensor.Dht20.StartMeasurement | DHT20.c:59-66 | writes the trigger command and returns OK iff the write succeeded, else a connect error |
| Sensor.Dht20.ResetSensor | DHT20.c:49-57 | sends the three reset commands in order when the status needs a reset, and nothing otherwise |
| Sensor.Dht20.Init | DHT20.c:21-47 | zeroes every field except `updateInterval`, the 7 buffer bytes included; returns OK iff some attempt's second status read shows bits 0x18 set, else the no-reset error; sends exactly the reset commands of the attempts made |
| Sensor.Dht20.ResetAttempts | DHT20.c:35-46 | the reset loop: OK iff some attempt's second status read shows the sensor ready, else the no-reset error; the writes are the reset commands of exactly the attempts made, stopping after the first ready one |
| Sensor.Dht20.ReadMeasurement | DHT20.c:68-98 | fills the buffer from the transfer, returns the verdict in priority order, and stamps `lastRead` with the clock only when the read is accepted |
| Sensor.Dht20.Convert | DHT20.c:100-126 | stores the status byte, both scaled readings and the CRC of bytes 0 to 5; returns a checksum error iff byte 6 differs; leaves the buffer alone |
| Sensor.Dht20.GetMeasurement | DHT20.c:128-161 | refuses within 1000 ms (uint32 subtraction) changing nothing and writing nothing; otherwise writes exactly the trigger command, and reads only when that write was made; fails on a failed trigger without reading; otherwise reads exactly five times, and converts iff the fifth read was accepted, the result being the conversion's verdict or the fifth read's error |
| Sensor.ElapsedAcrossWrap | DHT20.c:132 | the driver's unsigned subtraction measures `d` ms between a timestamp and one `d` ms later, across the 2^32 wrap |
| Sensor.RefusedWithinInterval | DHT20.c:132-135 | a measurement is refused exactly when fewer than 1000 ms passed since the last accepted read |
| Sensor.LastReadAfterIsLastAccepted | DHT20.c:145-153 | after the reads, `lastRead` is the clock of the last accepted read |
| Sensor.LastReadAfterNoneAccepted | DHT20.c:145-153 | after reads none of which was accepted, `lastRead` is unchanged |
| Sensor.AcceptedMeasurementIsIntact | DHT20.c:155-160 | a measurement reported OK came from a successful transfer of an idle, non-zero payload carrying its own CRC |
| Sensor.EarlierAcceptedReadIsDiscarded | DHT20.c:128-158 | an accepted intact first read followed by four busy reads reports busy, while `lastRead` keeps the first read's time, whatever it was before: a measurement requested `d` ms after that read is refused exactly when `d` is below 1000 |
| Sensor.ResetLogShape | DHT20.c:36-57 | initialisation writes only the three reset commands, in whole triples, at most three per attempt |
| Sensor.ResetLogCountsResets | DHT20.c:36-57 | initialisation sends one reset triple for each attempt whose first status read needs a reset |
| Sensor.ReadySensorGetsNoWrites | DHT20.c:36-57 | a sensor ready on both reads of the first attempt gets one attempt and no command |

## Left out

- The I2C transport (`i2c_read_blocking`, `i2c_write_blocking`), `sleep_ms` and the millisecond clock are platform calls. They are parameters of the operations that use them. The delays (100 ms, 50 ms, 10 ms) have no effect in the model.
- `readStatus` (DHT20.c:9-14): its bus read is a status-byte parameter. A failed status read leaves the C variable uninitialised; the parameter stands for whatever byte results.
- `isCalibrated`, `isMeasuring`, `isIdle`, `needsReset`: modelled as tests of the status byte read from the bus, not as operations that perform the read.
- Which I2C instance the reset writes use (`i2c0` at DHT20.c:53 versus the configured one) is a hardware detail and is not modelled.
- Sensor.Dht20.ReadMeasurement: after a failed transfer the buffer holds the event's payload. This covers whatever partial contents the transport leaves; the model does not say which.
- Sensor.Dht20.Convert: the readings are exact reals (raw x 100 / 2^20 and raw x 200 / 2^20 - 50). The driver's factors are `double` literals equal to 100 / 2^20 and 200 / 2^20, so for raw values below 2^20 the product and the subtraction of 50 are exact in double and equal the model's reals. The one rounding the model leaves out is the conversion of that double to the `float` field on the store.
- Sensor.Dht20.GetHumidity and Sensor.Dht20.GetTemperature add the offset as exact reals, without float rounding.
- The intermediate `uint32` shifts in `convert` never exceed 20 bits, so they are modelled as plain integer arithmetic.
- `updateMeasurement` and `setUpdateInterval` are declared in DHT20.h but never defined, so there is no behaviour to model. `updateInterval` is a field that nothing writes. `lastRequest` is written only by initialisation.
- The inner shift loop of `_crc8` (DHT20.c:229-240) and the reset loop of `DHT20_init` (DHT20.c:35-46) are methods of their own (`ShiftRegister`, `ResetAttempts`), called where the loops stand. The statements are the driver's; only the split into members differs, which keeps each proof small.
- The placement of the command buffers in flash memory: they are constant byte sequences here.
