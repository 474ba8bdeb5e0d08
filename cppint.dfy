/** The part of C++20's integer semantics that the helpers rely on, over
    mathematical integers: the widths of the unsigned types, integral
    promotion, conversions between signed and unsigned types, shifts and
    complement. A value of a `w`-bit unsigned type is an integer in
    [0, 2^w); a value of a `w`-bit signed type one in [-2^(w-1), 2^(w-1)). */
module CppInt {
  import opened Arithmetic
  import opened Bits

  type u8 = x: nat | x < 0x100
  type u16 = x: nat | x < 0x1_0000
  type u32 = x: nat | x < 0x1_0000_0000
  type u64 = x: nat | x < 0x1_0000_0000_0000_0000

  /** Widths in bits of u8, u16, u32 and u64 (`sizeof(T) * 8`). */
  predicate IsWidth(w: nat) {
    w == 8 || w == 16 || w == 32 || w == 64
  }

  /** Width of the type that an operand of a `w`-bit unsigned type is
      promoted to before shifts and bitwise operators: u8 and u16 become the
      32-bit `int`, u32 and u64 stay as they are. */
  function Promoted(w: nat): nat {
    if w < 32 then 32 else w
  }

  /** Whether `x` is a value of the 32-bit `int`. */
  predicate IsInt32(x: int) {
    -0x8000_0000 <= x < 0x8000_0000
  }

  lemma Pow2Widths()
    ensures Pow2(4) == 0x10 && Pow2(8) == 0x100 && Pow2(16) == 0x1_0000
    ensures Pow2(32) == 0x1_0000_0000 && Pow2(64) == 0x1_0000_0000_0000_0000
  {
    assert Pow2(2) == 4;
    Pow2Add(2, 2);
    Pow2Add(4, 4);
    Pow2Add(8, 8);
    Pow2Add(16, 16);
    Pow2Add(32, 32);
  }

  /** Conversion of any integer to a `w`-bit unsigned type: the value in
      range that is congruent to `x` modulo 2^w. */
  function ToUnsigned(x: int, w: nat): (r: nat)
    ensures r < Pow2(w)
    ensures (x - r) % Pow2(w) == 0
    ensures 0 <= x < Pow2(w) ==> r == x
  {
    ReduceModulo(x, Pow2(w));
    x % Pow2(w)
  }

  lemma ReduceModulo(x: int, m: int)
    requires m >= 1
    ensures 0 <= x % m < m
    ensures (x - x % m) % m == 0
    ensures 0 <= x < m ==> x % m == x
  {
    var q := x / m;
    assert x - x % m == q * m;
    MulDivExact(q, m);
    if 0 <= x < m {
      ModSmall(x, m);
    }
  }

  /** Conversion of a `w`-bit unsigned value to the signed type of the same
      width: the value in the signed range that is congruent to `x`. */
  function ToSigned(x: nat, w: nat): (s: int)
    requires 1 <= w && x < Pow2(w)
    ensures -Pow2(w - 1) <= s < Pow2(w - 1)
    ensures ToUnsigned(s, w) == x
  {
    assert Pow2(w) == 2 * Pow2(w - 1);
    if x < Pow2(w - 1) then x
    else
      DivModSplit(x, -1, Pow2(w));
      x - Pow2(w)
  }

  /** Reading a signed value as unsigned and back gives it back. */
  lemma SignedRoundTrip(s: int, w: nat)
    requires 1 <= w && -Pow2(w - 1) <= s < Pow2(w - 1)
    ensures ToSigned(ToUnsigned(s, w), w) == s
  {
    assert Pow2(w) == 2 * Pow2(w - 1);
    if s < 0 {
      DivModSplit(s + Pow2(w), -1, Pow2(w));
    }
  }

  /** The bits of a `w`-bit pattern read as signed: bit `w - 1`, the sign
      bit, is repeated in every higher position. */
  lemma SignedBits(x: nat, w: nat, i: nat)
    requires 1 <= w && x < Pow2(w)
    ensures Bit(ToSigned(x, w), i) == Bit(x, if i < w then i else w - 1)
  {
    if x < Pow2(w - 1) {
      NonNegativeSignedBits(x, w, i);
    } else {
      NegativeSignedBits(x, w, i);
    }
  }

  lemma NonNegativeSignedBits(x: nat, w: nat, i: nat)
    requires 1 <= w && x < Pow2(w - 1)
    ensures Bit(x, i) == Bit(x, if i < w then i else w - 1)
  {
    if w <= i {
      BitAboveWidth(x, w - 1, i);
      BitAboveWidth(x, w - 1, w - 1);
    }
  }

  lemma NegativeSignedBits(x: nat, w: nat, i: nat)
    requires 1 <= w && Pow2(w - 1) <= x < Pow2(w)
    ensures Bit(x - Pow2(w), i) == Bit(x, if i < w then i else w - 1)
  {
    var h := Pow2(w - 1);
    assert Pow2(w) == 2 * h;
    assert x - Pow2(w) == x + (-1) * Pow2(w);
    BitOfSum(x, -1, w, i);
    if w <= i {
      BitOfMinusOne(i - w);
      DivModSplit(x - h, 1, h);
      assert x / Pow2(w - 1) == 1;
    }
  }

  /** `x >> s`: C++20 defines it as x / 2^s rounded down, for signed and
      unsigned operands alike; a shift count of the operand's (promoted)
      width `w` or more is undefined. */
  function ShiftRight(x: int, s: nat, w: nat): (r: int)
    requires s < w
    ensures r * Pow2(s) <= x < (r + 1) * Pow2(s)
    ensures x >= 0 ==> r >= 0
  {
    FloorDivision(x, Pow2(s));
    x / Pow2(s)
  }

  lemma FloorDivision(x: int, p: int)
    requires p >= 1
    ensures x / p * p <= x < (x / p + 1) * p
    ensures x >= 0 ==> x / p >= 0
  {
    var q := x / p;
    assert x == q * p + x % p;
    assert (q + 1) * p == q * p + p;
  }

  /** `x << s` on a `w`-bit type, as a bit pattern: C++20 defines it as the
      value congruent to x * 2^s modulo 2^w; a shift count of `w` or more
      is undefined. */
  function ShiftLeft(x: int, s: nat, w: nat): nat
    requires s < w
  {
    ToUnsigned(x * Pow2(s), w)
  }

  /** `x << s` on a `w`-bit signed type. */
  function ShiftLeftSigned(x: int, s: nat, w: nat): int
    requires 1 <= w && s < w
  {
    ToSigned(ShiftLeft(x, s, w), w)
  }

  /** `~x` converted to a `w`-bit unsigned type: in two's complement the
      complement of `x` is -x - 1. */
  function BitNot(x: int, w: nat): nat {
    ToUnsigned(-x - 1, w)
  }

  /** `~0` is the all-ones pattern of the width. */
  lemma BitNotZero(w: nat)
    ensures BitNot(0, w) == Pow2(w) - 1
  {
    DivModSplit(Pow2(w) - 1, -1, Pow2(w));
  }
}
