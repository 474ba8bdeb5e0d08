/** Bits of integers in two's complement, and the bitwise `&` and `|` of C++
    on non-negative operands. Bit `i` of `x` is the remainder by 2 of `x`
    divided by 2^i rounded down, so a negative `x` has the infinitely many
    leading ones of its two's complement representation. */
module Bits {
  import opened Arithmetic

  /** Whether bit `i` of `x` is one. */
  predicate Bit(x: int, i: nat) {
    x / Pow2(i) % 2 == 1
  }

  /** `a & b`: bit `i` of the result is one when it is one in both. */
  function And(a: nat, b: nat): (r: nat)
    ensures r <= a && r <= b
    decreases a
  {
    if a == 0 || b == 0 then 0
    else 2 * And(a / 2, b / 2) + (if a % 2 == 1 && b % 2 == 1 then 1 else 0)
  }

  /** `a | b`: bit `i` of the result is one when it is one in either. */
  function Or(a: nat, b: nat): (r: nat)
    ensures a <= r && b <= r && r <= a + b
    decreases a
  {
    if a == 0 then b
    else if b == 0 then a
    else 2 * Or(a / 2, b / 2) + (if a % 2 == 1 || b % 2 == 1 then 1 else 0)
  }

  lemma BitZero(x: int)
    ensures Bit(x, 0) == (x % 2 == 1)
  {
    assert Pow2(0) == 1;
  }

  /** Bit `i` of `x / 2^k` is bit `i + k` of `x`. */
  lemma BitOfQuotient(x: int, k: nat, i: nat)
    ensures Bit(x / Pow2(k), i) == Bit(x, i + k)
  {
    DivModNested(x, Pow2(k), Pow2(i));
    Pow2Add(k, i);
  }

  /** The remainder by 2^m keeps the bits below `m` and clears the others. */
  lemma BitOfRemainder(x: int, m: nat, i: nat)
    ensures Bit(x % Pow2(m), i) == (i < m && Bit(x, i))
  {
    if i < m {
      Pow2Add(i, m - i);
      ModOfMod(x, Pow2(i), Pow2(m - i));
      assert Pow2(m - i) == 2 * Pow2(m - i - 1);
      ModOfMod(x / Pow2(i), 2, Pow2(m - i - 1));
    } else {
      Pow2Monotonic(m, i);
      ModSmall(x % Pow2(m), Pow2(i));
    }
  }

  /** A value below 2^m has no bit at or above `m`. */
  lemma BitAboveWidth(x: int, m: nat, i: nat)
    requires 0 <= x < Pow2(m) && m <= i
    ensures !Bit(x, i)
  {
    ModSmall(x, Pow2(m));
    BitOfRemainder(x, m, i);
  }

  /** The bits of `a + b * 2^m`, for `0 <= a < 2^m`: those of `a` below `m`,
      those of `b` from `m` on. */
  lemma BitOfSum(a: int, b: int, m: nat, i: nat)
    requires 0 <= a < Pow2(m)
    ensures Bit(a + b * Pow2(m), i) == if i < m then Bit(a, i) else Bit(b, i - m)
  {
    DivModSplit(a, b, Pow2(m));
    if i < m {
      BitOfRemainder(a + b * Pow2(m), m, i);
      BitOfRemainder(a, m, i);
      ModSmall(a, Pow2(m));
    } else {
      BitOfQuotient(a + b * Pow2(m), m, i - m);
    }
  }

  /** Every bit of -1 is one. */
  lemma BitOfMinusOne(i: nat)
    ensures Bit(-1, i)
  {
    DivModUnique(-1, Pow2(i), -1, Pow2(i) - 1);
  }

  /** 2^m - 1 has exactly the bits below `m` set. */
  lemma BitOfLowMask(m: nat, i: nat)
    ensures Bit(Pow2(m) - 1, i) == (i < m)
  {
    DivModUnique(-1, Pow2(m), -1, Pow2(m) - 1);
    BitOfRemainder(-1, m, i);
    BitOfMinusOne(i);
  }

  /** Two values below 2^w with the same bits below `w` are equal. */
  lemma {:induction false} BitsDetermine(x: int, y: int, w: nat)
    requires 0 <= x < Pow2(w) && 0 <= y < Pow2(w)
    requires forall i :: 0 <= i < w ==> Bit(x, i) == Bit(y, i)
    ensures x == y
  {
    if w > 0 {
      assert Pow2(w) == 2 * Pow2(w - 1);
      forall i | 0 <= i < w - 1
        ensures Bit(x / 2, i) == Bit(y / 2, i)
      {
        assert Pow2(1) == 2;
        BitOfQuotient(x, 1, i);
        BitOfQuotient(y, 1, i);
        assert Bit(x, i + 1) == Bit(y, i + 1);
      }
      BitsDetermine(x / 2, y / 2, w - 1);
      BitZero(x);
      BitZero(y);
      assert Bit(x, 0) == Bit(y, 0);
    }
  }

  /** Masking with 2^m - 1 is the remainder by 2^m. */
  lemma {:induction false} AndLowMask(x: nat, m: nat)
    ensures And(x, Pow2(m) - 1) == x % Pow2(m)
  {
    if m > 0 && x > 0 {
      AndLowMaskStep(x, m);
      AndLowMask(x / 2, m - 1);
      RemainderByPow2Step(x, m);
    } else {
      ModSmall(0, Pow2(m));
    }
  }

  lemma RemainderByPow2Step(x: int, m: nat)
    requires m > 0
    ensures x % Pow2(m) == 2 * (x / 2 % Pow2(m - 1)) + x % 2
  {
    DivModNested(x, 2, Pow2(m - 1));
  }

  lemma AndLowMaskStep(x: nat, m: nat)
    requires m > 0 && x > 0
    ensures And(x, Pow2(m) - 1) == 2 * And(x / 2, Pow2(m - 1) - 1) + x % 2
  {
    var mask := Pow2(m) - 1;
    assert mask == 2 * Pow2(m - 1) - 1;
    assert mask / 2 == Pow2(m - 1) - 1 && mask % 2 == 1;
  }

  /** `|` of two values without a common bit is their sum. */
  lemma {:induction false} OrDisjoint(a: nat, b: nat, m: nat)
    requires a < Pow2(m)
    ensures Or(a, b * Pow2(m)) == a + b * Pow2(m)
  {
    if a != 0 && b != 0 {
      assert m != 0;
      var half := Pow2(m - 1);
      assert b * Pow2(m) == 0 + (b * half) * 2;
      DivModSplit(0, b * half, 2);
      OrDisjoint(a / 2, b, m - 1);
    }
  }

  lemma {:induction false} OrCommutes(a: nat, b: nat)
    ensures Or(a, b) == Or(b, a)
    decreases a
  {
    if a != 0 && b != 0 {
      OrCommutes(a / 2, b / 2);
    }
  }

  lemma {:induction false} OrSelf(a: nat)
    ensures Or(a, a) == a
  {
    if a != 0 {
      OrSelf(a / 2);
    }
  }
}
