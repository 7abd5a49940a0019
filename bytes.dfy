/** Facts linking bytes (`bv8`) and their numeric values, kept apart from the rest of the model. */
module ByteArith {

  /** The byte whose value is `x`, built one bit at a time from the most significant end. */
  function ByteOf(x: nat): bv8
    requires x < 256
    decreases x
  {
    if x == 0 then 0
    else (ByteOf(x / 2) << 1) | (if x % 2 == 1 then 1 else 0)
  }

  /** Shifting a byte below 128 left and setting bit 0 doubles its value and adds the bit. */
  lemma ShiftInValue(b: bv8, c: bv8)
    requires b as nat < 128 && c as nat < 2
    ensures ((b << 1) | c) as nat == 2 * b as nat + c as nat
  {
  }

  /** `ByteOf(x)` has the value `x`. */
  lemma {:induction false} ByteOfValue(x: nat)
    requires x < 256
    ensures ByteOf(x) as nat == x
    decreases x
  {
    if x != 0 {
      ByteOfValue(x / 2);
      ShiftInValue(ByteOf(x / 2), if x % 2 == 1 then 1 else 0);
    }
  }

  /** Two bytes with the same value are the same byte. */
  lemma ValueInjective(a: bv8, b: bv8)
    requires a as nat == b as nat
    ensures a == b
  {
  }

  /** Splitting a byte into nibbles, in integer terms. */
  lemma NibblesOf(b: bv8)
    ensures (b >> 4) as nat == b as nat / 16
    ensures (b & 0x0F) as nat == b as nat % 16
  {
  }
}
