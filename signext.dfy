/** Sign extension: `Helpers::signExtend32` and `Helpers::signExtend16`.
    Both read the low `startingSize` bits of `value` as a two's complement
    number by shifting them to the top of a signed type and back. */
module SignExtension {
  import opened Arithmetic
  import opened Bits
  import opened CppInt

  /** What sign extension means: the low `n` bits of `value` read as an
      `n`-bit signed number, written back as a `width`-bit pattern. */
  function SignExtended(width: nat, value: int, n: nat): (r: nat)
    requires 1 <= n <= width
    ensures r < Pow2(width)
    ensures forall i :: 0 <= i < width ==>
              Bit(r, i) == Bit(value, if i < n then i else n - 1)
  {
    var s := ToSigned(value % Pow2(n), n);
    forall i | 0 <= i < width
      ensures Bit(ToUnsigned(s, width), i) == Bit(value, if i < n then i else n - 1)
    {
      BitOfRemainder(s, width, i);
      SignedBits(value % Pow2(n), n, i);
      BitOfRemainder(value, n, if i < n then i else n - 1);
    }
    ToUnsigned(s, width)
  }

  /** The shift pair `(u<width>)(temp << k >> k)` of both helpers, where
      `temp` is `value` converted to the signed type of its width and
      k = width - startingSize. Both shifts are carried out on the
      `shiftWidth`-bit signed type that `temp` is promoted to. */
  function ShiftPair(width: nat, shiftWidth: nat, value: nat, startingSize: nat): (r: nat)
    requires 1 <= width <= shiftWidth && value < Pow2(width)
    requires startingSize <= width && width - startingSize < shiftWidth
    ensures r < Pow2(width)
  {
    var temp := ToSigned(value, width);
    var bitsToShift := width - startingSize;
    var shifted := ShiftLeftSigned(temp, bitsToShift, shiftWidth);
    ToUnsigned(ShiftRight(shifted, bitsToShift, shiftWidth), width)
  }

  /** `signExtend32`: the low `startingSize` bits of `value` as a two's
      complement number, widened to 32 bits. A `startingSize` of 0 or above
      32 makes the shift count 32 or more, which is undefined. */
  function SignExtend32(value: u32, startingSize: nat): (r: u32)
    requires 1 <= startingSize <= 32
    ensures r == SignExtended(32, value, startingSize)
    ensures forall i :: 0 <= i < startingSize ==> Bit(r, i) == Bit(value, i)
    ensures forall i :: startingSize <= i < 32 ==> Bit(r, i) == Bit(value, startingSize - 1)
    ensures ToSigned(r, 32) == ToSigned(value % Pow2(startingSize), startingSize)
    ensures startingSize == 32 ==> r == value
  {
    Pow2Widths();
    ShiftPairAtOwnWidth(32, value, startingSize);
    SignExtendedValue(32, value, startingSize);
    ShiftPair(32, 32, value, startingSize)
  }

  /** `signExtend16` as written: `(s16)value` is promoted to the 32-bit
      `int` before the shifts, so nothing is shifted out of it and the
      shifts cancel; the value comes back unchanged for every
      `startingSize` from 0 to 16 (above 16 the shift count underflows,
      which is undefined). */
  function SignExtend16(value: u16, startingSize: nat): (r: u16)
    requires startingSize <= 16
    ensures r == value
  {
    Pow2Widths();
    ShiftPairCancels(16, 32, value, startingSize);
    ShiftPair(16, 32, value, startingSize)
  }

  /** `signExtend16` as its documentation describes it: the shifts carried
      out on 16 bits, as `(s16)(temp << bitsToShift) >> bitsToShift` does. */
  function SignExtend16Fixed(value: u16, startingSize: nat): (r: u16)
    requires 1 <= startingSize <= 16
    ensures r == SignExtended(16, value, startingSize)
    ensures forall i :: 0 <= i < startingSize ==> Bit(r, i) == Bit(value, i)
    ensures forall i :: startingSize <= i < 16 ==> Bit(r, i) == Bit(value, startingSize - 1)
    ensures ToSigned(r, 16) == ToSigned(value % Pow2(startingSize), startingSize)
  {
    Pow2Widths();
    ShiftPairAtOwnWidth(16, value, startingSize);
    SignExtendedValue(16, value, startingSize);
    ShiftPair(16, 16, value, startingSize)
  }

  /** The byte 0x80 is -128 as an 8-bit number: the corrected helper gives
      0xFF80, the helper as written gives 0x80 back. */
  lemma SignExtend16DoesNotExtend()
    ensures SignExtend16(0x80, 8) == 0x80
    ensures SignExtend16Fixed(0x80, 8) == 0xFF80
  {
    Pow2Widths();
    var r := SignExtend16Fixed(0x80, 8);
    assert ToSigned(r, 16) == -0x80;
    assert ToUnsigned(-0x80, 16) == 0xFF80 by {
      DivModSplit(0xFF80, -1, 0x1_0000);
    }
  }

  /** The signed value of a sign-extended pattern is that of the low bits. */
  lemma SignExtendedValue(width: nat, value: int, n: nat)
    requires 1 <= n <= width
    ensures ToSigned(SignExtended(width, value, n), width) == ToSigned(value % Pow2(n), n)
    ensures n == width && 0 <= value < Pow2(width) ==> SignExtended(width, value, n) == value
  {
    var s := ToSigned(value % Pow2(n), n);
    Pow2Monotonic(n - 1, width - 1);
    SignedRoundTrip(s, width);
    if n == width && 0 <= value < Pow2(width) {
      ModSmall(value, Pow2(width));
    }
  }

  /** On a signed type of the operand's own width the shift pair sign
      extends: shifting left by k drops the bits above `n`, and shifting
      right rounds down, copying the sign bit back into them. */
  lemma ShiftPairAtOwnWidth(width: nat, value: nat, n: nat)
    requires 1 <= n <= width && value < Pow2(width)
    ensures ShiftPair(width, width, value, n) == SignExtended(width, value, n)
  {
    var k := width - n;
    var u := value % Pow2(n);
    var s := ToSigned(u, n);
    ShiftLeftKeepsLowBits(ToSigned(value, width), value, width, n);
    SignedOfShiftedLowBits(u, width, n);
    MulDivExact(s, Pow2(k));
  }

  /** `temp << k` on `width` bits keeps the low `width - k` bits of `temp`,
      moved up by k. */
  lemma ShiftLeftKeepsLowBits(temp: int, value: nat, width: nat, n: nat)
    requires 1 <= n <= width && value < Pow2(width)
    requires temp == value || temp == value - Pow2(width)
    ensures ShiftLeft(temp, width - n, width) == value % Pow2(n) * Pow2(width - n)
  {
    var k := width - n;
    Pow2Add(k, n);
    assert Pow2(width) == Pow2(n) * Pow2(k);
    ScaledRemainder(temp, value, if temp == value then 0 else -1, Pow2(n), Pow2(k));
  }

  lemma ScaledRemainder(t: int, v: int, c: int, pn: int, pk: int)
    requires pn > 0 && pk > 0 && t == v + c * (pn * pk)
    ensures t * pk % (pn * pk) == v % pn * pk
  {
    var u := v % pn;
    assert v == v / pn * pn + u;
    calc {
      t * pk;
      v * pk + c * pk * (pn * pk);
      (v / pn * pn + u) * pk + c * pk * (pn * pk);
      u * pk + (v / pn + c * pk) * (pn * pk);
    }
    MulMonotonic(u, pn, pk);
    DivModSplit(u * pk, v / pn + c * pk, pn * pk);
  }

  /** Reading `u * 2^k` as a signed `width`-bit number, for an `n`-bit `u`
      and k = width - n, is reading `u` as a signed `n`-bit number and
      multiplying by 2^k. */
  lemma SignedOfShiftedLowBits(u: nat, width: nat, n: nat)
    requires 1 <= n <= width && u < Pow2(n)
    ensures u * Pow2(width - n) < Pow2(width)
    ensures ToSigned(u * Pow2(width - n), width) == ToSigned(u, n) * Pow2(width - n)
  {
    var k := width - n;
    var pk, ph := Pow2(k), Pow2(n - 1);
    assert Pow2(n) == 2 * ph;
    Pow2Add(n, k);
    Pow2Add(n - 1, k);
    assert Pow2(width) == Pow2(n) * pk;
    assert Pow2(width - 1) == ph * pk;
    ScaledSigned(u, ph, pk);
    assert ToSigned(u, n) == if u < ph then u else u - 2 * ph;
  }

  lemma ScaledSigned(u: int, h: int, pk: int)
    requires h > 0 && pk > 0 && 0 <= u < 2 * h
    ensures 0 <= u * pk < (2 * h) * pk
    ensures (if u * pk < h * pk then u * pk else u * pk - (2 * h) * pk)
         == (if u < h then u else u - 2 * h) * pk
  {
    MulMonotonic(u, 2 * h, pk);
    MulMonotonic(0, u, pk);
    if u < h {
      MulMonotonic(u, h, pk);
    } else {
      MulMonotonic(h, u, pk);
    }
  }

  /** When the promoted type is at least twice as wide as the operand, the
      left shift cannot overflow and the right shift undoes it. */
  lemma ShiftPairCancels(width: nat, shiftWidth: nat, value: nat, n: nat)
    requires 1 <= width && 2 * width <= shiftWidth && value < Pow2(width) && n <= width
    ensures ShiftPair(width, shiftWidth, value, n) == value
  {
    var k := width - n;
    var temp := ToSigned(value, width);
    var shifted := ShiftLeftSigned(temp, k, shiftWidth);
    assert shifted == temp * Pow2(k) by {
      ScaledFitsWider(temp, width, k, shiftWidth);
      ShiftLeftWithoutOverflow(temp, k, shiftWidth);
    }
    assert ShiftRight(shifted, k, shiftWidth) == temp by {
      MulDivExact(temp, Pow2(k));
    }
  }

  lemma ShiftLeftWithoutOverflow(t: int, k: nat, shiftWidth: nat)
    requires 1 <= shiftWidth && k < shiftWidth
    requires -Pow2(shiftWidth - 1) <= t * Pow2(k) < Pow2(shiftWidth - 1)
    ensures ShiftLeftSigned(t, k, shiftWidth) == t * Pow2(k)
  {
    SignedRoundTrip(t * Pow2(k), shiftWidth);
  }

  lemma ScaledFitsWider(t: int, width: nat, k: nat, shiftWidth: nat)
    requires 1 <= width && k <= width && 2 * width <= shiftWidth
    requires -Pow2(width - 1) <= t < Pow2(width - 1)
    ensures -Pow2(shiftWidth - 1) <= t * Pow2(k) < Pow2(shiftWidth - 1)
  {
    Pow2Add(width - 1, k);
    Pow2Monotonic(width - 1 + k, shiftWidth - 1);
    ScaledInRange(t, Pow2(width - 1), Pow2(k), Pow2(shiftWidth - 1));
  }

  lemma ScaledInRange(t: int, h: int, pk: int, bound: int)
    requires pk > 0 && -h <= t < h && h * pk <= bound
    ensures -bound <= t * pk < bound
  {
    MulMonotonic(-h, t, pk);
    MulMonotonic(t, h, pk);
    assert -h * pk == -(h * pk);
  }
}
