/**
 * The CRC-8 the sensor appends to each measurement: polynomial 0x31
 * (x^8 + x^5 + x^4 + 1), processed most significant bit first, initial value
 * 0xFF, no final XOR.
 */
module Checksum {
  import opened Common

  /** One shift of the register: shift left within 8 bits, XOR 0x31 when the top bit fell out. */
  function Step(c: byte): byte {
    if c & 0x80 != 0 then (c << 1) ^ 0x31 else c << 1
  }

  /** `n` shifts of the register (the driver's inner loop runs `n == 8`). */
  function Rounds(c: byte, n: nat): byte
    decreases n
  {
    if n == 0 then c else Step(Rounds(c, n - 1))
  }

  /** Bits per byte: the number of register shifts per absorbed byte. */
  const BITS: nat := 8

  /** Folds one data byte into the register. */
  function Absorb(c: byte, b: byte): byte {
    Rounds(c ^ b, BITS)
  }

  /** The register after absorbing `s`, byte by byte, starting from `init`. */
  function CrcFrom(init: byte, s: seq<byte>): byte
    decreases |s|
  {
    if s == [] then init else Absorb(CrcFrom(init, s[..|s| - 1]), s[|s| - 1])
  }

  /** The sensor's checksum of `s`. */
  function Crc(s: seq<byte>): byte {
    CrcFrom(0xFF, s)
  }

  /**
   * The driver's `_crc8`: the first `len` bytes of `ptr`, one byte at a time,
   * each followed by eight register shifts.
   */
  method Crc8(ptr: array<byte>, len: uint8) returns (crc: byte)
    requires len <= ptr.Length
    ensures crc == Crc(ptr[..len])
  {
    crc := 0xFF;
    var p := 0;
    var n := len;
    while n > 0
      invariant 0 <= p <= len && p + n == len
      invariant crc == Crc(ptr[..p])
    {
      n := n - 1;
      crc := crc ^ ptr[p];
      p := p + 1;
      crc := ShiftRegister(crc);
      CrcOfPrefix(ptr[..], p);
    }
  }

  /** The inner loop of `_crc8`: eight register shifts, each XORing 0x31 when the top bit falls out. */
  method ShiftRegister(start: byte) returns (crc: byte)
    ensures crc == Rounds(start, BITS)
  {
    crc := start;
    for i := 0 to BITS
      invariant crc == Rounds(start, i)
    {
      if crc & 0x80 != 0 {
        crc := crc << 1;
        crc := crc ^ 0x31;
      } else {
        crc := crc << 1;
      }
    }
  }

  /** The checksum of the first `p` bytes absorbs byte `p - 1` into the checksum of the first `p - 1`. */
  lemma CrcOfPrefix(s: seq<byte>, p: nat)
    requires 0 < p <= |s|
    ensures Crc(s[..p]) == Absorb(Crc(s[..p - 1]), s[p - 1])
  {
    assert s[..p][..p - 1] == s[..p - 1];
  }

  /** Absorbing a byte, written out as the eight shifts the driver performs. */
  lemma AbsorbUnrolled(c: byte, b: byte)
    ensures Absorb(c, b) == Step(Step(Step(Step(Step(Step(Step(Step(c ^ b))))))))
  {
    assert Rounds(c ^ b, 8) == Step(Step(Step(Step(Step(Step(Step(Step(c ^ b))))))));
  }

  /** The checksum of nothing is the initial value; the checksums of runs of zero bytes. */
  lemma CrcKnownValues()
    ensures Crc([]) == 0xFF
    ensures Crc([0x00]) == 0xAC
    ensures Crc([0x00, 0x00, 0x00, 0x00, 0x00, 0x00]) == 0x6A
  {
    var z: seq<byte> := [0x00, 0x00, 0x00, 0x00, 0x00, 0x00];
    AbsorbUnrolled(0xFF, 0x00);
    AbsorbUnrolled(0xAC, 0x00);
    AbsorbUnrolled(0x81, 0x00);
    AbsorbUnrolled(0x4B, 0x00);
    AbsorbUnrolled(0xD7, 0x00);
    AbsorbUnrolled(0x93, 0x00);
    assert Absorb(0xFF, 0x00) == 0xAC;
    assert Crc([0x00]) == 0xAC by { CrcAppend([], 0x00); }
    assert Crc(z[..2]) == 0x81 by { CrcAppend([0x00], 0x00); assert z[..2] == [0x00] + [0x00]; }
    assert Crc(z[..3]) == 0x4B by { CrcAppend(z[..2], 0x00); assert z[..3] == z[..2] + [0x00]; }
    assert Crc(z[..4]) == 0xD7 by { CrcAppend(z[..3], 0x00); assert z[..4] == z[..3] + [0x00]; }
    assert Crc(z[..5]) == 0x93 by { CrcAppend(z[..4], 0x00); assert z[..5] == z[..4] + [0x00]; }
    assert Crc(z) == 0x6A by { CrcAppend(z[..5], 0x00); assert z == z[..5] + [0x00]; }
  }

  /** Extending the input by one byte absorbs that byte into the checksum of the prefix. */
  lemma CrcAppend(s: seq<byte>, b: byte)
    ensures Crc(s + [b]) == Rounds(Crc(s) ^ b, BITS)
  {
    assert (s + [b])[..|s|] == s;
  }

  /** A register shift loses no information: it is injective. */
  lemma StepInjective(x: byte, y: byte)
    requires Step(x) == Step(y)
    ensures x == y
  {
  }

  /** Any number of shifts is injective. */
  lemma {:induction false} RoundsInjective(x: byte, y: byte, n: nat)
    requires Rounds(x, n) == Rounds(y, n)
    ensures x == y
  {
    if n > 0 {
      StepInjective(Rounds(x, n - 1), Rounds(y, n - 1));
      RoundsInjective(x, y, n - 1);
    }
  }

  /** Absorbing the same byte into two different registers gives two different registers. */
  lemma AbsorbInjective(x: byte, y: byte, b: byte)
    requires Absorb(x, b) == Absorb(y, b)
    ensures x == y
  {
    RoundsInjective(x ^ b, y ^ b, BITS);
  }

  /** Absorbing two different bytes into the same register gives two different registers. */
  lemma AbsorbSensitive(c: byte, b: byte, m: byte)
    requires m != 0
    ensures Absorb(c, b ^ m) != Absorb(c, b)
  {
    if Absorb(c, b ^ m) == Absorb(c, b) {
      RoundsInjective(c ^ (b ^ m), c ^ b, BITS);
    }
  }

  /** An error in the last byte reaches the checksum. */
  lemma ErrorInLastByte(init: byte, s: seq<byte>, m: byte)
    requires |s| > 0 && m != 0
    ensures CrcFrom(init, s[|s| - 1 := s[|s| - 1] ^ m]) != CrcFrom(init, s)
  {
    var k := |s| - 1;
    var t := s[k := s[k] ^ m];
    assert t[..k] == s[..k];
    AbsorbSensitive(CrcFrom(init, s[..k]), s[k], m);
  }

  /** Two inputs ending in the same byte whose registers differed before it still differ after it. */
  lemma ErrorCarried(init: byte, s: seq<byte>, t: seq<byte>)
    requires |s| == |t| > 0 && s[|s| - 1] == t[|t| - 1]
    requires CrcFrom(init, s[..|s| - 1]) != CrcFrom(init, t[..|t| - 1])
    ensures CrcFrom(init, s) != CrcFrom(init, t)
  {
    var k := |s| - 1;
    if CrcFrom(init, s) == CrcFrom(init, t) {
      AbsorbInjective(CrcFrom(init, s[..k]), CrcFrom(init, t[..k]), s[k]);
    }
  }

  /**
   * Changing one byte of the input by any non-zero XOR pattern changes the
   * checksum, whatever the initial value and the bytes around it.
   */
  lemma {:induction false} CrcFromDetectsByteError(init: byte, s: seq<byte>, i: nat, m: byte)
    requires i < |s| && m != 0
    ensures CrcFrom(init, s[i := s[i] ^ m]) != CrcFrom(init, s)
    decreases |s|
  {
    if i == |s| - 1 {
      ErrorInLastByte(init, s, m);
    } else {
      var k := |s| - 1;
      var t := s[i := s[i] ^ m];
      CrcFromDetectsByteError(init, s[..k], i, m);
      assert t[..k] == s[..k][i := s[i] ^ m];
      ErrorCarried(init, t, s);
    }
  }

  /** The sensor's checksum detects every error confined to one byte. */
  lemma CrcDetectsByteError(s: seq<byte>, i: nat, m: byte)
    requires i < |s| && m != 0
    ensures Crc(s[i := s[i] ^ m]) != Crc(s)
  {
    CrcFromDetectsByteError(0xFF, s, i, m);
  }

  /** In particular, flipping any single bit of the input changes the checksum. */
  lemma CrcDetectsBitFlip(s: seq<byte>, i: nat, j: nat)
    requires i < |s| && j < 8
    ensures Crc(s[i := s[i] ^ (1 << j)]) != Crc(s)
  {
    assert (1 as byte) << j != 0;
    CrcDetectsByteError(s, i, (1 as byte) << j);
  }
}
