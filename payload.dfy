/**
 * The 7-byte measurement payload: a status byte, five data bytes holding two
 * 20-bit raw values, and the CRC-8 of the first six bytes.
 */
module Payload {
  import opened Common
  import opened Checksum
  import opened StatusBits
  import opened ByteArith

  const PAYLOAD_LENGTH: nat := 7
  /** Number of bytes the checksum covers. */
  const CHECKED_LENGTH: uint8 := 6
  /** 2^20: one past the largest raw reading. */
  const RAW_LIMIT: nat := 0x10_0000

  /**
   * Raw humidity: byte 1, then byte 2, then the high nibble of byte 3, most
   * significant first.
   */
  function RawHumidity(p: seq<byte>): (h: nat)
    requires |p| == PAYLOAD_LENGTH
    ensures h < RAW_LIMIT
  {
    var hi, mid, lo := p[1] as nat, p[2] as nat, (p[3] >> 4) as nat;
    assert hi < 0x100 && mid < 0x100 && lo < 0x10;
    (hi * 0x100 + mid) * 0x10 + lo
  }

  /**
   * Raw temperature: the low nibble of byte 3, then byte 4, then byte 5, most
   * significant first.
   */
  function RawTemperature(p: seq<byte>): (t: nat)
    requires |p| == PAYLOAD_LENGTH
    ensures t < RAW_LIMIT
  {
    var hi, mid, lo := (p[3] & 0x0F) as nat, p[4] as nat, p[5] as nat;
    assert hi < 0x10 && mid < 0x100 && lo < 0x100;
    (hi * 0x100 + mid) * 0x100 + lo
  }

  /**
   * Five byte values carry raw humidity `h` and raw temperature `t` as the
   * sensor sends them: humidity's top 8, middle 8 and low 4 bits, then
   * temperature's top 4, middle 8 and low 8 bits, the third byte holding one
   * nibble of each.
   */
  predicate EncodesValues(b1: nat, b2: nat, b3: nat, b4: nat, b5: nat, h: nat, t: nat) {
    && b1 == h / 0x1000
    && b2 == h / 0x10 % 0x100
    && b3 == h % 0x10 * 0x10 + t / 0x1_0000
    && b4 == t / 0x100 % 0x100
    && b5 == t % 0x100
  }

  /** Bytes 1 to 5 of `p` carry raw humidity `h` and raw temperature `t`. */
  predicate Encodes(p: seq<byte>, h: nat, t: nat)
    requires |p| == PAYLOAD_LENGTH
  {
    EncodesValues(p[1] as nat, p[2] as nat, p[3] as nat, p[4] as nat, p[5] as nat, h, t)
  }

  /** Humidity's digit groups joined: 8 bits, 8 bits, then the high nibble of the third value. */
  function JoinHumidity(b1: nat, b2: nat, b3: nat): nat {
    (b1 * 0x100 + b2) * 0x10 + b3 / 0x10
  }

  /** Temperature's digit groups joined: the low nibble of the first value, 8 bits, 8 bits. */
  function JoinTemperature(b3: nat, b4: nat, b5: nat): nat {
    (b3 % 0x10 * 0x100 + b4) * 0x100 + b5
  }

  /** A raw humidity is its three digit groups (8, 8 and 4 bits) put back together. */
  lemma HumidityDigits(h: nat)
    requires h < RAW_LIMIT
    ensures h / 0x1000 < 0x100
    ensures (h / 0x1000 * 0x100 + h / 0x10 % 0x100) * 0x10 + h % 0x10 == h
  {
    assert h / 0x1000 == h / 0x10 / 0x100;
  }

  /** A raw temperature is its three digit groups (4, 8 and 8 bits) put back together. */
  lemma TemperatureDigits(t: nat)
    requires t < RAW_LIMIT
    ensures t / 0x1_0000 < 0x10
    ensures (t / 0x1_0000 * 0x100 + t / 0x100 % 0x100) * 0x100 + t % 0x100 == t
  {
    assert t / 0x1_0000 == t / 0x100 / 0x100;
  }

  /** Digit groups put together come apart again into the same groups (humidity layout). */
  lemma HumidityOfDigits(b1: nat, b2: nat, n: nat)
    requires b1 < 0x100 && b2 < 0x100 && n < 0x10
    ensures var h := (b1 * 0x100 + b2) * 0x10 + n;
      h / 0x1000 == b1 && h / 0x10 % 0x100 == b2 && h % 0x10 == n
  {
    var h := (b1 * 0x100 + b2) * 0x10 + n;
    assert h / 0x10 == b1 * 0x100 + b2;
    assert h / 0x1000 == h / 0x10 / 0x100;
  }

  /** Digit groups put together come apart again into the same groups (temperature layout). */
  lemma TemperatureOfDigits(n: nat, b4: nat, b5: nat)
    requires n < 0x10 && b4 < 0x100 && b5 < 0x100
    ensures var t := (n * 0x100 + b4) * 0x100 + b5;
      t / 0x1_0000 == n && t / 0x100 % 0x100 == b4 && t % 0x100 == b5
  {
    var t := (n * 0x100 + b4) * 0x100 + b5;
    assert t / 0x100 == n * 0x100 + b4;
    assert t / 0x1_0000 == t / 0x100 / 0x100;
  }

  /** The raw values in terms of the payload bytes read as numbers. */
  lemma RawValuesAsNumbers(p: seq<byte>)
    requires |p| == PAYLOAD_LENGTH
    ensures RawHumidity(p) == JoinHumidity(p[1] as nat, p[2] as nat, p[3] as nat)
    ensures RawTemperature(p) == JoinTemperature(p[3] as nat, p[4] as nat, p[5] as nat)
  {
    NibblesOf(p[3]);
  }

  /** A value below 0x100 made of a high and a low nibble comes apart into those nibbles. */
  lemma NibbleSplit(hi: nat, lo: nat)
    requires lo < 0x10
    ensures (hi * 0x10 + lo) / 0x10 == hi && (hi * 0x10 + lo) % 0x10 == lo
  {
  }

  /** The humidity half of the encoding joins back into `h`. */
  lemma JoinEncodedHumidity(b1: nat, b2: nat, b3: nat, h: nat, t: nat)
    requires h < RAW_LIMIT && t < RAW_LIMIT
    requires b1 == h / 0x1000 && b2 == h / 0x10 % 0x100 && b3 == h % 0x10 * 0x10 + t / 0x1_0000
    ensures JoinHumidity(b1, b2, b3) == h
  {
    HumidityDigits(h);
    TemperatureDigits(t);
    NibbleSplit(h % 0x10, t / 0x1_0000);
  }

  /** The temperature half of the encoding joins back into `t`. */
  lemma JoinEncodedTemperature(b3: nat, b4: nat, b5: nat, h: nat, t: nat)
    requires h < RAW_LIMIT && t < RAW_LIMIT
    requires b3 == h % 0x10 * 0x10 + t / 0x1_0000 && b4 == t / 0x100 % 0x100 && b5 == t % 0x100
    ensures JoinTemperature(b3, b4, b5) == t
  {
    TemperatureDigits(t);
    NibbleSplit(h % 0x10, t / 0x1_0000);
  }

  /** Bytes that encode two raw values unpack to exactly those values. */
  lemma UnpackEncoded(p: seq<byte>, h: nat, t: nat)
    requires |p| == PAYLOAD_LENGTH && h < RAW_LIMIT && t < RAW_LIMIT
    requires Encodes(p, h, t)
    ensures RawHumidity(p) == h && RawTemperature(p) == t
  {
    RawValuesAsNumbers(p);
    JoinEncodedHumidity(p[1] as nat, p[2] as nat, p[3] as nat, h, t);
    JoinEncodedTemperature(p[3] as nat, p[4] as nat, p[5] as nat, h, t);
  }

  /** Five byte values joined as the sensor joins them are what the joined values encode. */
  lemma EncodesJoined(b1: nat, b2: nat, b3: nat, b4: nat, b5: nat)
    requires b1 < 0x100 && b2 < 0x100 && b3 < 0x100 && b4 < 0x100 && b5 < 0x100
    ensures EncodesValues(b1, b2, b3, b4, b5, JoinHumidity(b1, b2, b3), JoinTemperature(b3, b4, b5))
  {
    HumidityOfDigits(b1, b2, b3 / 0x10);
    TemperatureOfDigits(b3 % 0x10, b4, b5);
  }

  /** Every payload encodes its own raw values. */
  lemma EncodesUnpacked(p: seq<byte>)
    requires |p| == PAYLOAD_LENGTH
    ensures Encodes(p, RawHumidity(p), RawTemperature(p))
  {
    RawValuesAsNumbers(p);
    EncodesJoined(p[1] as nat, p[2] as nat, p[3] as nat, p[4] as nat, p[5] as nat);
  }

  /** The encoding of two raw values is unique. */
  lemma EncodingUnique(b1: nat, b2: nat, b3: nat, b4: nat, b5: nat, c1: nat, c2: nat, c3: nat, c4: nat, c5: nat, h: nat, t: nat)
    requires EncodesValues(b1, b2, b3, b4, b5, h, t) && EncodesValues(c1, c2, c3, c4, c5, h, t)
    ensures b1 == c1 && b2 == c2 && b3 == c3 && b4 == c4 && b5 == c5
  {
  }

  /** Payloads with the same raw values have data bytes of the same values. */
  lemma SameRawSameValues(p: seq<byte>, q: seq<byte>)
    requires |p| == PAYLOAD_LENGTH && |q| == PAYLOAD_LENGTH
    requires RawHumidity(p) == RawHumidity(q) && RawTemperature(p) == RawTemperature(q)
    ensures p[1] as nat == q[1] as nat && p[2] as nat == q[2] as nat && p[3] as nat == q[3] as nat
    ensures p[4] as nat == q[4] as nat && p[5] as nat == q[5] as nat
  {
    EncodesUnpacked(p);
    EncodesUnpacked(q);
    EncodingUnique(p[1] as nat, p[2] as nat, p[3] as nat, p[4] as nat, p[5] as nat,
                   q[1] as nat, q[2] as nat, q[3] as nat, q[4] as nat, q[5] as nat,
                   RawHumidity(p), RawTemperature(p));
  }

  /** The two raw values determine the five data bytes: the split loses nothing. */
  lemma RawValuesDetermineBytes(p: seq<byte>, q: seq<byte>)
    requires |p| == PAYLOAD_LENGTH && |q| == PAYLOAD_LENGTH
    requires RawHumidity(p) == RawHumidity(q) && RawTemperature(p) == RawTemperature(q)
    ensures p[1..6] == q[1..6]
  {
    SameRawSameValues(p, q);
    ValueInjective(p[1], q[1]);
    ValueInjective(p[2], q[2]);
    ValueInjective(p[3], q[3]);
    ValueInjective(p[4], q[4]);
    ValueInjective(p[5], q[5]);
    assert forall i :: 1 <= i < 6 ==> p[i] == q[i];
  }

  /** Every pair of 20-bit raw values has an encoding, with any status and check byte around it. */
  lemma EncodingExists(status: byte, h: nat, t: nat, check: byte)
    requires h < RAW_LIMIT && t < RAW_LIMIT
    ensures exists p: seq<byte> :: |p| == PAYLOAD_LENGTH && p[0] == status && p[6] == check && Encodes(p, h, t)
  {
    HumidityDigits(h);
    TemperatureDigits(t);
    var x1, x2, x3, x4, x5 := h / 0x1000, h / 0x10 % 0x100, h % 0x10 * 0x10 + t / 0x1_0000, t / 0x100 % 0x100, t % 0x100;
    ByteOfValue(x1);
    ByteOfValue(x2);
    ByteOfValue(x3);
    ByteOfValue(x4);
    ByteOfValue(x5);
    var p := [status, ByteOf(x1), ByteOf(x2), ByteOf(x3), ByteOf(x4), ByteOf(x5), check];
    assert Encodes(p, h, t);
  }

  /** Relative humidity in percent for a raw reading: raw / 2^20 * 100. */
  function HumidityPercent(raw: nat): real {
    raw as real * 100.0 / 1048576.0
  }

  /** Temperature in degrees Celsius for a raw reading: raw / 2^20 * 200 - 50. */
  function TemperatureCelsius(raw: nat): real {
    raw as real * 200.0 / 1048576.0 - 50.0
  }

  /** Every raw humidity maps into [0, 100) percent; raw zero is exactly 0 percent. */
  lemma HumidityRange(raw: nat)
    requires raw < RAW_LIMIT
    ensures 0.0 <= HumidityPercent(raw) < 100.0
    ensures raw == 0 ==> HumidityPercent(raw) == 0.0
  {
  }

  /** Every raw temperature maps into [-50, 150) degrees; the largest is 150 less one step. */
  lemma TemperatureRange(raw: nat)
    requires raw < RAW_LIMIT
    ensures -50.0 <= TemperatureCelsius(raw) < 150.0
    ensures raw == RAW_LIMIT - 1 ==> TemperatureCelsius(raw) == 150.0 - 200.0 / 1048576.0
  {
  }

  /** `convert`'s verdict on a payload: byte 6 must equal the CRC of bytes 0 to 5. */
  function ChecksumVerdict(p: seq<byte>): Code
    requires |p| == PAYLOAD_LENGTH
  {
    if Crc(p[..CHECKED_LENGTH]) != p[6] then ErrorChecksum else Ok
  }

  /** Six bytes followed by their CRC, as an intact sensor sends them. */
  function Sealed(d: seq<byte>): (p: seq<byte>)
    requires |d| == CHECKED_LENGTH
    ensures |p| == PAYLOAD_LENGTH && p[..CHECKED_LENGTH] == d && p[6] == Crc(d)
  {
    d + [Crc(d)]
  }

  /** An intact payload passes the checksum test, and the test accepts nothing else. */
  lemma VerdictOkIffSealed(p: seq<byte>)
    requires |p| == PAYLOAD_LENGTH
    ensures ChecksumVerdict(p) == Ok <==> p == Sealed(p[..CHECKED_LENGTH])
  {
    if ChecksumVerdict(p) == Ok {
      assert p == p[..CHECKED_LENGTH] + [p[6]];
    }
  }

  /** Corrupting any one of the six checked bytes of an intact payload makes the checksum test fail. */
  lemma CorruptedPayloadFails(d: seq<byte>, i: nat, m: byte)
    requires |d| == CHECKED_LENGTH && i < CHECKED_LENGTH && m != 0
    ensures ChecksumVerdict(Sealed(d)[i := Sealed(d)[i] ^ m]) == ErrorChecksum
  {
    var p := Sealed(d)[i := Sealed(d)[i] ^ m];
    assert p[..CHECKED_LENGTH] == d[i := d[i] ^ m];
    CrcDetectsByteError(d, i, m);
  }

  /** All seven bytes are zero. */
  predicate AllZero(p: seq<byte>)
    requires |p| == PAYLOAD_LENGTH
  {
    forall i :: 0 <= i < PAYLOAD_LENGTH ==> p[i] == 0
  }

  /**
   * `readMeasurement`'s verdict on one 7-byte transfer, in the driver's order:
   * bus failure, then the busy bit of byte 0, then an all-zero payload.
   */
  function ReadVerdict(ok: bool, p: seq<byte>): Code
    requires |p| == PAYLOAD_LENGTH
  {
    if !ok then ErrorConnect
    else if IsMeasuring(p[0]) then ErrorBusy
    else if AllZero(p) then ErrorBytesAllZero
    else Ok
  }

  /**
   * A transfer is accepted exactly when it succeeded, the sensor is idle and
   * some byte is non-zero; each error names the first test that failed.
   */
  lemma ReadVerdictCases(ok: bool, p: seq<byte>)
    requires |p| == PAYLOAD_LENGTH
    ensures ReadVerdict(ok, p) == Ok <==> ok && IsIdle(p[0]) && exists i :: 0 <= i < PAYLOAD_LENGTH && p[i] != 0
    ensures ReadVerdict(ok, p) == ErrorConnect <==> !ok
    ensures ReadVerdict(ok, p) == ErrorBusy <==> ok && IsMeasuring(p[0])
    ensures ReadVerdict(ok, p) == ErrorBytesAllZero <==> ok && IsIdle(p[0]) && AllZero(p)
  {
    IdleIffNotMeasuring(p[0]);
  }

  /** The all-zero payload would fail the checksum test as well: the CRC of six zero bytes is 0x6A. */
  lemma AllZeroPayloadFailsChecksum(p: seq<byte>)
    requires |p| == PAYLOAD_LENGTH && AllZero(p)
    ensures ChecksumVerdict(p) == ErrorChecksum
  {
    CrcKnownValues();
    assert p[..CHECKED_LENGTH] == [0x00, 0x00, 0x00, 0x00, 0x00, 0x00];
  }
}
