/** Rotations: `Helpers::rotr` and `Helpers::rotl` on an unsigned `T` of
    width `width` (8, 16, 32 or 64) by an `int` amount `bits`. The amount is
    first reduced with `bits &= width - 1`; the value is then shifted both
    ways on its promoted type, the two halves are or-ed together, and the
    result is converted back to `T`.

    For u8 and u16 the promoted type is the signed 32-bit `int`; its left
    shift is modelled by its 32-bit pattern (`ShiftLeft` at width 32),
    which has the same low bits, and the conversion back to `T` reads only
    those. */
module Rotation {
  import opened Arithmetic
  import opened Bits
  import opened CppInt

  /** log2 of a width, so that the mask `width - 1` is `2^WidthLog - 1`. */
  function WidthLog(width: nat): (m: nat)
    requires IsWidth(width)
    ensures Pow2(m) == width
  {
    if width == 8 then 3 else if width == 16 then 4 else if width == 32 then 5 else 6
  }

  /** `bits &= bitWidth - 1`: `bits` is converted to the 64-bit `size_t` of
      `bitWidth`, masked, and the result (below the width) is stored back
      into the `int`. It is the Euclidean remainder of `bits` by the width,
      also for a negative `bits`. */
  function ReducedAmount(width: nat, bits: int): (k: nat)
    requires IsWidth(width) && IsInt32(bits)
    ensures k == bits % width
    ensures k < width
  {
    var m := WidthLog(width);
    AndLowMask(ToUnsigned(bits, 64), m);
    Pow2Add(m, 64 - m);
    ModOfMod(bits, Pow2(m), Pow2(64 - m));
    And(ToUnsigned(bits, 64), width - 1)
  }

  /** Whether the shifts of `rotr` and `rotl` are defined: the complementary
      shift count `bitWidth - bits` is the full width when the amount is a
      multiple of the width, which is a shift beyond the promoted type of a
      32-bit or 64-bit `T` but not beyond the `int` that u8 and u16 become. */
  predicate RotationDefined(width: nat, bits: int) {
    width < 32 || bits % width != 0
  }

  /** `rotr(value, bits)`: bit `i` of the result is bit `i + bits` of
      `value`, counted around the width. */
  function Rotr(width: nat, value: nat, bits: int): (r: nat)
    requires IsWidth(width) && value < Pow2(width) && IsInt32(bits)
    requires RotationDefined(width, bits)
    ensures r < Pow2(width)
    ensures forall i :: 0 <= i < width ==> Bit(r, i) == Bit(value, (i + bits) % width)
  {
    var k := ReducedAmount(width, bits);
    var p := Promoted(width);
    RotrBits(width, p, value, bits, k, width - k);
    ToUnsigned(Or(ShiftRight(value, k, p), ShiftLeft(value, width - k, p)), width)
  }

  /** `rotl(value, bits)`: bit `i` of the result is bit `i - bits` of
      `value`, counted around the width. */
  function Rotl(width: nat, value: nat, bits: int): (r: nat)
    requires IsWidth(width) && value < Pow2(width) && IsInt32(bits)
    requires RotationDefined(width, bits)
    ensures r < Pow2(width)
    ensures forall i :: 0 <= i < width ==> Bit(r, i) == Bit(value, (i - bits) % width)
  {
    var k := ReducedAmount(width, bits);
    var p := Promoted(width);
    RotlBits(width, p, value, bits, k, width - k);
    ToUnsigned(Or(ShiftLeft(value, k, p), ShiftRight(value, width - k, p)), width)
  }

  /** Rotating left by the amount of a right rotation undoes it. */
  lemma RotlUndoesRotr(width: nat, value: nat, bits: int)
    requires IsWidth(width) && value < Pow2(width) && IsInt32(bits)
    requires RotationDefined(width, bits)
    ensures Rotl(width, Rotr(width, value, bits), bits) == value
  {
    var r := Rotr(width, value, bits);
    var back := Rotl(width, r, bits);
    forall i | 0 <= i < width
      ensures Bit(back, i) == Bit(value, i)
    {
      LeftThenRight(i, bits, width);
    }
    BitsDetermine(back, value, width);
  }

  /** Rotating right by the amount of a left rotation undoes it. */
  lemma RotrUndoesRotl(width: nat, value: nat, bits: int)
    requires IsWidth(width) && value < Pow2(width) && IsInt32(bits)
    requires RotationDefined(width, bits)
    ensures Rotr(width, Rotl(width, value, bits), bits) == value
  {
    var l := Rotl(width, value, bits);
    var back := Rotr(width, l, bits);
    forall i | 0 <= i < width
      ensures Bit(back, i) == Bit(value, i)
    {
      RightThenLeft(i, bits, width);
    }
    BitsDetermine(back, value, width);
  }

  /** A right rotation is the left rotation by the rest of the width. */
  lemma RotrIsRotlByComplement(width: nat, value: nat, bits: int)
    requires IsWidth(width) && value < Pow2(width) && IsInt32(bits)
    requires RotationDefined(width, bits) && RotationDefined(width, width - bits % width)
    ensures Rotr(width, value, bits) == Rotl(width, value, width - bits % width)
  {
    var r := Rotr(width, value, bits);
    var l := Rotl(width, value, width - bits % width);
    forall i | 0 <= i < width
      ensures Bit(r, i) == Bit(l, i)
    {
      ComplementPosition(i, bits, width);
    }
    BitsDetermine(r, l, width);
  }

  /** For u8 and u16 a rotation by a multiple of the width changes nothing. */
  lemma RotateByWholeWidth(width: nat, value: nat, bits: int)
    requires IsWidth(width) && width < 32 && value < Pow2(width) && IsInt32(bits)
    requires bits % width == 0
    ensures Rotr(width, value, bits) == value && Rotl(width, value, bits) == value
  {
    var r := Rotr(width, value, bits);
    var l := Rotl(width, value, bits);
    forall i | 0 <= i < width
      ensures Bit(r, i) == Bit(value, i) && Bit(l, i) == Bit(value, i)
    {
      WholeTurn(i, bits, width);
    }
    BitsDetermine(r, value, width);
    BitsDetermine(l, value, width);
  }

  /** The shift count `bitWidth - bits` that `rotr` and `rotl` compute
      after reducing the amount. */
  function ComplementCount(width: nat, bits: int): (c: nat)
    requires IsWidth(width) && IsInt32(bits)
    ensures 1 <= c <= width
    ensures c == width <==> bits % width == 0
  {
    width - ReducedAmount(width, bits)
  }

  /** For a 32-bit or 64-bit `T` and an amount that is a multiple of the
      width, such as 0, the complementary shift is by the full width of
      the promoted type, which C++ leaves undefined. */
  lemma WholeWidthRotationOvershifts(width: nat, bits: int)
    requires IsWidth(width) && width >= 32 && IsInt32(bits) && bits % width == 0
    ensures ComplementCount(width, bits) == Promoted(width)
    ensures !RotationDefined(width, bits)
  {
  }

  /** `rotr` with the complementary shift count reduced as well,
      `(bitWidth - bits) & (bitWidth - 1)`, which is defined for every
      amount. */
  function RotrFixed(width: nat, value: nat, bits: int): (r: nat)
    requires IsWidth(width) && value < Pow2(width) && IsInt32(bits)
    ensures r < Pow2(width)
    ensures forall i :: 0 <= i < width ==> Bit(r, i) == Bit(value, (i + bits) % width)
  {
    var k := ReducedAmount(width, bits);
    var p := Promoted(width);
    var c := MaskedComplement(width, k);
    RotrBits(width, p, value, bits, k, c);
    ToUnsigned(Or(ShiftRight(value, k, p), ShiftLeft(value, c, p)), width)
  }

  /** `rotl` with the complementary shift count reduced as well. */
  function RotlFixed(width: nat, value: nat, bits: int): (r: nat)
    requires IsWidth(width) && value < Pow2(width) && IsInt32(bits)
    ensures r < Pow2(width)
    ensures forall i :: 0 <= i < width ==> Bit(r, i) == Bit(value, (i - bits) % width)
  {
    var k := ReducedAmount(width, bits);
    var p := Promoted(width);
    var c := MaskedComplement(width, k);
    RotlBits(width, p, value, bits, k, c);
    ToUnsigned(Or(ShiftLeft(value, k, p), ShiftRight(value, c, p)), width)
  }

  /** Where the source's rotations are defined, the corrected ones agree
      with them. */
  lemma FixedRotationsAgree(width: nat, value: nat, bits: int)
    requires IsWidth(width) && value < Pow2(width) && IsInt32(bits)
    requires RotationDefined(width, bits)
    ensures RotrFixed(width, value, bits) == Rotr(width, value, bits)
    ensures RotlFixed(width, value, bits) == Rotl(width, value, bits)
  {
    BitsDetermine(RotrFixed(width, value, bits), Rotr(width, value, bits), width);
    BitsDetermine(RotlFixed(width, value, bits), Rotl(width, value, bits), width);
  }

  /** The corrected rotations undo each other for every amount. */
  lemma FixedRotationsRoundTrip(width: nat, value: nat, bits: int)
    requires IsWidth(width) && value < Pow2(width) && IsInt32(bits)
    ensures RotlFixed(width, RotrFixed(width, value, bits), bits) == value
    ensures RotrFixed(width, RotlFixed(width, value, bits), bits) == value
  {
    var backR := RotlFixed(width, RotrFixed(width, value, bits), bits);
    var backL := RotrFixed(width, RotlFixed(width, value, bits), bits);
    forall i | 0 <= i < width
      ensures Bit(backR, i) == Bit(value, i) && Bit(backL, i) == Bit(value, i)
    {
      LeftThenRight(i, bits, width);
      RightThenLeft(i, bits, width);
    }
    BitsDetermine(backR, value, width);
    BitsDetermine(backL, value, width);
  }

  /** The corrected rotations by a multiple of the width, 0 included,
      change nothing at every width. */
  lemma FixedRotationByWholeWidth(width: nat, value: nat, bits: int)
    requires IsWidth(width) && value < Pow2(width) && IsInt32(bits)
    requires bits % width == 0
    ensures RotrFixed(width, value, bits) == value && RotlFixed(width, value, bits) == value
  {
    var r := RotrFixed(width, value, bits);
    var l := RotlFixed(width, value, bits);
    forall i | 0 <= i < width
      ensures Bit(r, i) == Bit(value, i) && Bit(l, i) == Bit(value, i)
    {
      WholeTurn(i, bits, width);
    }
    BitsDetermine(r, value, width);
    BitsDetermine(l, value, width);
  }

  /** `(bitWidth - k) & (bitWidth - 1)` for a reduced amount `k`. */
  function MaskedComplement(width: nat, k: nat): (c: nat)
    requires IsWidth(width) && k < width
    ensures c == if k == 0 then 0 else width - k
  {
    var m := WidthLog(width);
    AndLowMask(width - k, m);
    MaskedComplementValue(width, k);
    And(width - k, width - 1)
  }

  lemma MaskedComplementValue(width: nat, k: nat)
    requires 0 < width && k < width
    ensures (width - k) % width == if k == 0 then 0 else width - k
  {
    if k == 0 {
      MulDivExact(1, width);
    } else {
      ModSmall(width - k, width);
    }
  }

  /** The bits of `(value >> k) | (value << c)` converted to the width,
      where `k` is the reduced amount and `c` is `width - k`, or 0 when `k`
      is. */
  lemma RotrBits(width: nat, p: nat, value: nat, bits: int, k: nat, c: nat)
    requires 1 <= width <= p && value < Pow2(width) && k < width
    requires k == bits % width && (c == width - k || (c == 0 && k == 0)) && c < p
    ensures ToUnsigned(Or(ShiftRight(value, k, p), ShiftLeft(value, c, p)), width) < Pow2(width)
    ensures forall i :: 0 <= i < width ==>
      Bit(ToUnsigned(Or(ShiftRight(value, k, p), ShiftLeft(value, c, p)), width), i)
        == Bit(value, (i + bits) % width)
  {
    if c == width - k {
      RotatedHalves(width, p, value, bits, k, c);
    } else {
      var r := ToUnsigned(Or(ShiftRight(value, k, p), ShiftLeft(value, c, p)), width);
      RotateByNothing(width, p, value);
      forall i | 0 <= i < width
        ensures Bit(r, i) == Bit(value, (i + bits) % width)
      {
        WholeTurn(i, bits, width);
      }
    }
  }

  /** The bits of `(value << k) | (value >> c)` converted to the width. */
  lemma RotlBits(width: nat, p: nat, value: nat, bits: int, k: nat, c: nat)
    requires 1 <= width <= p && value < Pow2(width) && k < width
    requires k == bits % width && (c == width - k || (c == 0 && k == 0)) && c < p
    ensures ToUnsigned(Or(ShiftLeft(value, k, p), ShiftRight(value, c, p)), width) < Pow2(width)
    ensures forall i :: 0 <= i < width ==>
      Bit(ToUnsigned(Or(ShiftLeft(value, k, p), ShiftRight(value, c, p)), width), i)
        == Bit(value, (i - bits) % width)
  {
    OrCommutes(ShiftLeft(value, k, p), ShiftRight(value, c, p));
    if c == width - k {
      CounterRotatedHalves(width, p, value, bits, c, k);
    } else {
      var r := ToUnsigned(Or(ShiftLeft(value, k, p), ShiftRight(value, c, p)), width);
      RotateByNothing(width, p, value);
      forall i | 0 <= i < width
        ensures Bit(r, i) == Bit(value, (i - bits) % width)
      {
        WholeTurn(i, bits, width);
      }
    }
  }

  /** Both halves present: a rotation right by `k`. */
  lemma RotatedHalves(width: nat, p: nat, value: nat, bits: int, k: nat, c: nat)
    requires 1 <= width <= p && value < Pow2(width) && k < width
    requires k == bits % width && c == width - k && c < p
    ensures ToUnsigned(Or(ShiftRight(value, k, p), ShiftLeft(value, c, p)), width) < Pow2(width)
    ensures forall i :: 0 <= i < width ==>
      Bit(ToUnsigned(Or(ShiftRight(value, k, p), ShiftLeft(value, c, p)), width), i)
        == Bit(value, (i + bits) % width)
  {
    var r := ToUnsigned(Or(ShiftRight(value, k, p), ShiftLeft(value, c, p)), width);
    RotatePieces(width, p, value, k);
    forall i | 0 <= i < width
      ensures Bit(r, i) == Bit(value, (i + bits) % width)
    {
      RotatedBit(width, value, k, i);
      ReducedPosition(i, bits, width);
    }
  }

  /** Both halves present, with the shift counts swapped: a rotation right
      by `s = width - k`, which is a rotation left by `bits`. */
  lemma CounterRotatedHalves(width: nat, p: nat, value: nat, bits: int, s: nat, k: nat)
    requires 1 <= width <= p && value < Pow2(width) && 0 < s <= width && s < p
    requires s == width - bits % width && k == width - s
    ensures ToUnsigned(Or(ShiftRight(value, s, p), ShiftLeft(value, k, p)), width) < Pow2(width)
    ensures forall i :: 0 <= i < width ==>
      Bit(ToUnsigned(Or(ShiftRight(value, s, p), ShiftLeft(value, k, p)), width), i)
        == Bit(value, (i - bits) % width)
  {
    var r := ToUnsigned(Or(ShiftRight(value, s, p), ShiftLeft(value, k, p)), width);
    RotatePieces(width, p, value, s);
    forall i | 0 <= i < width
      ensures Bit(r, i) == Bit(value, (i - bits) % width)
    {
      RotatedBit(width, value, s, i);
      ComplementedPosition(i, bits, width);
    }
  }

  lemma RotatePieces(width: nat, p: nat, value: nat, s: nat)
    requires 1 <= width <= p && value < Pow2(width)
    requires s <= width && s < p && width - s < p
    ensures 0 <= value / Pow2(s) < Pow2(width - s)
    ensures ToUnsigned(Or(ShiftRight(value, s, p), ShiftLeft(value, width - s, p)), width)
      == value / Pow2(s) + value % Pow2(s) * Pow2(width - s)
  {
    var t := width - s;
    var lo := value / Pow2(s);
    assert 0 <= lo < Pow2(t) by {
      Pow2Add(s, t);
      DivBelow(value, Pow2(s), Pow2(t));
    }
    var y := value % Pow2(p - t);
    assert ShiftLeft(value, t, p) == y * Pow2(t) by {
      Pow2Add(t, p - t);
      MulModScaled(value, Pow2(t), Pow2(p - t));
    }
    assert Or(lo, y * Pow2(t)) == lo + y * Pow2(t) by {
      OrDisjoint(lo, y, t);
    }
    assert (lo + y * Pow2(t)) % Pow2(width) == lo + y % Pow2(s) * Pow2(t) by {
      Pow2Add(t, s);
      ModOfPlaced(lo, y, Pow2(t), Pow2(s));
    }
    assert y % Pow2(s) == value % Pow2(s) by {
      Pow2Add(s, p - t - s);
      ModOfMod(value, Pow2(s), Pow2(p - t - s));
    }
  }

  /** Bit `i` of the closed form is bit `i + s` of `value` around the
      width. */
  lemma RotatedBit(width: nat, value: nat, s: nat, i: nat)
    requires value < Pow2(width) && s <= width && i < width
    requires 0 <= value / Pow2(s) < Pow2(width - s)
    ensures Bit(value / Pow2(s) + value % Pow2(s) * Pow2(width - s), i) == Bit(value, (i + s) % width)
  {
    var lo, hi, t := value / Pow2(s), value % Pow2(s), width - s;
    var x := lo + hi * Pow2(t);
    var j := (i + s) % width;
    assert Bit(x, i) == if i < t then Bit(lo, i) else Bit(hi, i - t) by {
      BitOfSum(lo, hi, t, i);
    }
    if i < t {
      assert Bit(lo, i) == Bit(value, j) by {
        LowPartBit(width, value, s, i);
      }
    } else {
      assert Bit(hi, i - t) == Bit(value, j) by {
        HighPartBit(width, value, s, i);
      }
    }
  }

  lemma LowPartBit(width: nat, value: nat, s: nat, i: nat)
    requires s <= width && i < width - s
    ensures Bit(value / Pow2(s), i) == Bit(value, (i + s) % width)
  {
    BitOfQuotient(value, s, i);
    ModSmall(i + s, width);
  }

  lemma HighPartBit(width: nat, value: nat, s: nat, i: nat)
    requires s <= width && width - s <= i < width
    ensures Bit(value % Pow2(s), i - (width - s)) == Bit(value, (i + s) % width)
  {
    BitOfRemainder(value, s, i - (width - s));
    DivModSplit(i - (width - s), 1, width);
    assert i - (width - s) + 1 * width == i + s;
  }

  /** With a reduced amount of 0 and the complementary count masked to 0,
      both halves are `value` itself. */
  lemma RotateByNothing(width: nat, p: nat, value: nat)
    requires 1 <= width <= p && value < Pow2(width)
    ensures ToUnsigned(Or(ShiftRight(value, 0, p), ShiftLeft(value, 0, p)), width) == value
    ensures ToUnsigned(Or(ShiftLeft(value, 0, p), ShiftRight(value, 0, p)), width) == value
  {
    Pow2Monotonic(width, p);
    assert ShiftLeft(value, 0, p) == value;
    assert ShiftRight(value, 0, p) == value;
    OrSelf(value);
  }

  /** Positions that differ by whole turns are the same position. */
  lemma SamePosition(a: int, b: int, q: int, width: nat)
    requires width > 0 && a == b + q * width
    ensures a % width == b % width
  {
    DivModAddMultiple(b, q, width);
  }

  /** Position `i + k` around the width, for the reduced amount `k`, is
      position `i + bits`. */
  lemma ReducedPosition(i: int, bits: int, width: nat)
    requires width > 0
    ensures (i + bits % width) % width == (i + bits) % width
  {
    var q := bits / width;
    assert bits == q * width + bits % width;
    SamePosition(i + bits, i + bits % width, q, width);
  }

  /** Position `i + (width - k)` around the width is position `i - bits`. */
  lemma ComplementedPosition(i: int, bits: int, width: nat)
    requires width > 0
    ensures (i + (width - bits % width)) % width == (i - bits) % width
  {
    var q := bits / width;
    assert bits == q * width + bits % width;
    SamePosition(i + (width - bits % width), i - bits, 1 + q, width);
  }

  /** The positions a left and a right rotation read agree when the left
      amount is the rest of the width. */
  lemma ComplementPosition(i: int, bits: int, width: nat)
    requires width > 0
    ensures (i + bits) % width == (i - (width - bits % width)) % width
  {
    var q := bits / width;
    assert bits == q * width + bits % width;
    SamePosition(i + bits, i - (width - bits % width), 1 + q, width);
  }

  /** Reading `bits` positions back and then `bits` forward returns to the
      start. */
  lemma LeftThenRight(i: nat, bits: int, width: nat)
    requires i < width
    ensures 0 <= (i - bits) % width < width
    ensures ((i - bits) % width + bits) % width == i
  {
    var q := (i - bits) / width;
    assert i - bits == q * width + (i - bits) % width;
    SamePosition(i, (i - bits) % width + bits, q, width);
    ModSmall(i, width);
  }

  /** Reading `bits` positions forward and then `bits` back returns to the
      start. */
  lemma RightThenLeft(i: nat, bits: int, width: nat)
    requires i < width
    ensures 0 <= (i + bits) % width < width
    ensures ((i + bits) % width - bits) % width == i
  {
    var q := (i + bits) / width;
    assert i + bits == q * width + (i + bits) % width;
    SamePosition(i, (i + bits) % width - bits, q, width);
    ModSmall(i, width);
  }

  /** A whole number of turns reads every position in place. */
  lemma WholeTurn(i: nat, bits: int, width: nat)
    requires i < width && bits % width == 0
    ensures (i + bits) % width == i && (i - bits) % width == i
  {
    var q := bits / width;
    assert bits == q * width;
    SamePosition(i + bits, i, q, width);
    SamePosition(i - bits, i, -q, width);
    ModSmall(i, width);
  }
}
