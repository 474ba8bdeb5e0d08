/** Masks and bit-field extraction: `Helpers::ones`, `Helpers::getBit`,
    `Helpers::getBits` and `Helpers::isBitSet`. The templates are modelled
    once for every unsigned `T`, whose width `width` is 8, 16, 32 or 64. */
module BitFields {
  import opened Arithmetic
  import opened Bits
  import opened CppInt

  /** `ones<T, count>()`: the mask of the low `count` bits, made by shifting
      the all-ones value of `T` right by `width - count`. A `count` above
      the width is rejected at compile time; a `count` of 0 is answered
      before the shift, which would otherwise be by the full width. */
  function Ones(width: nat, count: nat): (r: nat)
    requires IsWidth(width) && count <= width
    ensures r == Pow2(count) - 1
    ensures forall i: nat :: Bit(r, i) <==> i < count
  {
    LowMaskBits(Pow2(count) - 1, count);
    if count == 0 then 0
    else
      AllOnesShiftedRight(width, count);
      ShiftRight(BitNot(0, width), width - count, Promoted(width))
  }

  lemma LowMaskBits(mask: int, count: nat)
    requires mask == Pow2(count) - 1
    ensures forall i: nat :: Bit(mask, i) <==> i < count
  {
    forall i: nat ensures Bit(mask, i) <==> i < count {
      BitOfLowMask(count, i);
    }
  }

  /** The all-ones value of the width shifted right by `width - count`. */
  lemma AllOnesShiftedRight(width: nat, count: nat)
    requires 1 <= count <= width && width - count < Promoted(width)
    ensures ShiftRight(BitNot(0, width), width - count, Promoted(width)) == Pow2(count) - 1
  {
    BitNotZero(width);
    Pow2Add(width - count, count);
    AllOnesShifted(Pow2(count), Pow2(width - count));
  }

  lemma AllOnesShifted(a: int, b: int)
    requires a >= 1 && b >= 1
    ensures (b * a - 1) / b == a - 1
  {
    DivModSplit(b - 1, a - 1, b);
  }

  /** `ones` of the full width is `~T(0)`, every bit set. */
  lemma OnesFullWidth(width: nat)
    requires IsWidth(width)
    ensures Ones(width, width) == BitNot(0, width)
  {
    BitNotZero(width);
  }

  /** `getBit<offset>(value)`: `(value >> offset) & 1`. A shift by the width
      of the promoted type or more is undefined. */
  function GetBit(width: nat, offset: nat, value: nat): (r: nat)
    requires IsWidth(width) && value < Pow2(width) && offset < Promoted(width)
    ensures r == if Bit(value, offset) then 1 else 0
  {
    var shifted := ShiftRight(value, offset, Promoted(width));
    AndLowMask(shifted, 1);
    And(shifted, 1)
  }

  /** `getBits<offset, bits>(value)`: `(value >> offset) & ones<T, bits>()`,
      the `bits`-bit field of `value` that starts at bit `offset`, moved to
      the bottom. */
  function GetBits(width: nat, offset: nat, bits: nat, value: nat): (r: nat)
    requires IsWidth(width) && value < Pow2(width) && offset < Promoted(width)
    requires bits <= width
    ensures r < Pow2(bits)
    ensures forall i: nat :: Bit(r, i) <==> i < bits && Bit(value, offset + i)
  {
    var shifted := ShiftRight(value, offset, Promoted(width));
    AndLowMask(shifted, bits);
    FieldBits(value, offset, bits);
    And(shifted, Ones(width, bits))
  }

  lemma FieldBits(value: nat, offset: nat, bits: nat)
    ensures value / Pow2(offset) % Pow2(bits) < Pow2(bits)
    ensures forall i: nat :: Bit(value / Pow2(offset) % Pow2(bits), i) <==> i < bits && Bit(value, offset + i)
  {
    var field := value / Pow2(offset) % Pow2(bits);
    forall i: nat ensures Bit(field, i) <==> i < bits && Bit(value, offset + i) {
      BitOfRemainder(value / Pow2(offset), bits, i);
      BitOfQuotient(value, offset, i);
    }
  }

  /** A one-bit field is the single bit `getBit` extracts. */
  lemma GetBitsOfOneBit(width: nat, offset: nat, value: nat)
    requires IsWidth(width) && value < Pow2(width) && offset < Promoted(width)
    ensures GetBits(width, offset, 1, value) == GetBit(width, offset, value)
  {
    var r := GetBits(width, offset, 1, value);
    assert Pow2(1) == 2;
    BitZero(r);
    assert Bit(r, 0) == Bit(value, offset);
  }

  /** `isBitSet(value, bit)`: whether `(value >> bit) & 1` is non-zero, for a
      32-bit `value` and an `int` bit index; an index outside 0..31 makes
      the shift undefined. */
  function IsBitSet(value: u32, bit: int): (r: bool)
    requires 0 <= bit < 32
    ensures r <==> Bit(value, bit)
  {
    var shifted := ShiftRight(value, bit, 32);
    AndLowMask(shifted, 1);
    And(shifted, 1) != 0
  }

  /** For an index in range, `isBitSet` answers what `getBit` of the same
      32-bit value extracts. The bound on `value` is the range of `u32`
      written as `GetBit` states it, 2^32. */
  lemma IsBitSetAgreesWithGetBit(value: u32, bit: int)
    requires 0 <= bit < 32 && value < Pow2(32)
    ensures IsBitSet(value, bit) <==> GetBit(32, bit, value) == 1
  {
  }
}
