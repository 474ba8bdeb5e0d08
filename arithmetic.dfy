/** Powers of two and the facts about Euclidean division and remainder by
    them on which the bit-level proofs rest. Dafny's `/` and `%` are
    Euclidean: for a positive divisor `/` rounds down and `%` is never
    negative, which is what the shift and conversion rules of C++20 need. */
module Arithmetic {

  /** 2 to the power `n`. */
  function Pow2(n: nat): (r: int)
    ensures r >= 1
  {
    if n == 0 then 1 else 2 * Pow2(n - 1)
  }

  lemma {:induction false} Pow2Add(a: nat, b: nat)
    ensures Pow2(a + b) == Pow2(a) * Pow2(b)
  {
    if b > 0 {
      Pow2Add(a, b - 1);
      calc {
        Pow2(a + b);
        2 * Pow2(a + b - 1);
        2 * (Pow2(a) * Pow2(b - 1));
        Pow2(a) * (2 * Pow2(b - 1));
        Pow2(a) * Pow2(b);
      }
    }
  }

  lemma Pow2Monotonic(a: nat, b: nat)
    requires a <= b
    ensures Pow2(a) <= Pow2(b)
    ensures a < b ==> 2 * Pow2(a) <= Pow2(b)
  {
    Pow2Add(a, b - a);
    if a < b {
      assert Pow2(b - a) == 2 * Pow2(b - a - 1);
      MulAtLeast(Pow2(a), Pow2(b - a - 1));
    }
  }

  lemma MulAtLeast(m: int, k: int)
    requires m >= 0 && k >= 1
    ensures m * k >= m
  {
  }

  lemma MulMonotonic(a: int, b: int, c: int)
    requires a <= b && c >= 0
    ensures a * c <= b * c
    ensures a < b && c > 0 ==> a * c < b * c
  {
    assert b * c - a * c == (b - a) * c;
    if a < b && c > 0 {
      MulAtLeast(c, b - a);
    }
  }

  /** Quotient and remainder are unique. */
  lemma DivModUnique(x: int, m: int, q: int, r: int)
    requires m > 0 && 0 <= r < m && x == q * m + r
    ensures x / m == q && x % m == r
  {
    var q0, r0 := x / m, x % m;
    assert x == q0 * m + r0;
    assert (q - q0) * m == r0 - r;
    if q > q0 {
      MulAtLeast(m, q - q0);
    } else if q < q0 {
      MulAtLeast(m, q0 - q);
    }
  }

  lemma MulDivExact(a: int, m: int)
    requires m > 0
    ensures a * m / m == a && a * m % m == 0
  {
    DivModUnique(a * m, m, a, 0);
  }

  /** Adding a multiple of `m` moves the quotient and keeps the remainder. */
  lemma DivModAddMultiple(a: int, b: int, m: int)
    requires m > 0
    ensures (a + b * m) / m == a / m + b
    ensures (a + b * m) % m == a % m
  {
    DivModUnique(a + b * m, m, a / m + b, a % m);
  }

  /** A value below `m` placed under a multiple of `m`. */
  lemma DivModSplit(a: int, b: int, m: int)
    requires m > 0 && 0 <= a < m
    ensures (a + b * m) / m == b && (a + b * m) % m == a
  {
    DivModUnique(a + b * m, m, b, a);
  }

  /** Dividing by `a` and then by `b` is dividing by `a * b`; the remainder
      by `a * b` is made of the two smaller remainders. */
  lemma DivModNested(x: int, a: int, b: int)
    requires a > 0 && b > 0
    ensures x / (a * b) == x / a / b
    ensures x % (a * b) == a * (x / a % b) + x % a
  {
    var q1, r1 := x / a, x % a;
    var q2, r2 := q1 / b, q1 % b;
    assert x == (q2 * b + r2) * a + r1;
    assert x == q2 * (a * b) + (a * r2 + r1);
    MulAtLeast(a, b - r2);
    assert a * (b - r2) == a * b - a * r2;
    DivModUnique(x, a * b, q2, a * r2 + r1);
  }

  /** The remainder by a multiple of `a` keeps the remainder by `a`, and its
      quotient by `a` is the quotient's remainder. */
  lemma ModOfMod(x: int, a: int, b: int)
    requires a > 0 && b > 0
    ensures x % (a * b) % a == x % a
    ensures x % (a * b) / a == x / a % b
  {
    DivModNested(x, a, b);
    DivModSplit(x % a, x / a % b, a);
  }

  /** Reducing a factor before multiplying does not change the remainder. */
  lemma MulModRight(a: int, b: int, m: int)
    requires m > 0
    ensures a * (b % m) % m == a * b % m
  {
    assert a * b == a * (b % m) + (a * (b / m)) * m;
    DivModAddMultiple(a * (b % m), a * (b / m), m);
  }

  /** A non-negative value below `m` is its own remainder. */
  lemma ModSmall(x: int, m: int)
    requires 0 <= x < m
    ensures x % m == x && x / m == 0
  {
    DivModUnique(x, m, 0, x);
  }

  /** The remainder of a multiple of `e` by `e * f`. */
  lemma MulModScaled(v: int, e: int, f: int)
    requires e > 0 && f > 0
    ensures v * e % (e * f) == v % f * e
  {
    var q, r := v / f, v % f;
    assert v * e == q * (e * f) + r * e;
    MulMonotonic(r, f - 1, e);
    DivModUnique(v * e, e * f, q, r * e);
  }

  /** The remainder by `e * f` of a value below `e` placed under a multiple
      of `e`. */
  lemma ModOfPlaced(lo: int, y: int, e: int, f: int)
    requires e > 0 && f > 0 && 0 <= lo < e
    ensures (lo + y * e) % (e * f) == lo + y % f * e
  {
    DivModNested(lo + y * e, e, f);
    DivModSplit(lo, y, e);
  }

  /** A non-negative value below `a * b` has a quotient by `a` below `b`. */
  lemma DivBelow(x: int, a: int, b: int)
    requires a > 0 && b > 0 && 0 <= x < a * b
    ensures 0 <= x / a < b
  {
    var q := x / a;
    assert x == q * a + x % a;
    if q >= b {
      MulMonotonic(b, q, a);
    } else if q < 0 {
      MulMonotonic(q, -1, a);
    }
  }
}
