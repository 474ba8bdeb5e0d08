/** The user-defined literals `_KB`, `_MB` and `_GB` for memory sizes. The
    argument is an `unsigned long long` and the product a 64-bit `size_t`,
    so each literal is computed modulo 2^64. */
module SizeLiterals {
  import opened Arithmetic
  import opened CppInt

  /** `x_KB`: `1024ULL * x`. It is a multiple of 1024 and, below the point
      where the product wraps around, exactly 1024 times `x`. */
  function KB(x: u64): (r: u64)
    ensures r % 1024 == 0
    ensures x < 0x40_0000_0000_0000 ==> r == 1024 * x
  {
    Pow2Widths();
    ScaledSize(x, 1024, 0x40_0000_0000_0000);
    ToUnsigned(1024 * x, 64)
  }

  /** `x_MB`: `1024_KB * x`, which is taking `_KB` twice. */
  function MB(x: u64): (r: u64)
    ensures r == KB(KB(x))
    ensures r % 0x10_0000 == 0
    ensures x < 0x1000_0000_0000 ==> r == 0x10_0000 * x
  {
    Pow2Widths();
    MulModRight(1024, 1024 * x, Pow2(64));
    ScaledSize(x, 0x10_0000, 0x1000_0000_0000);
    ToUnsigned(KB(1024) * x, 64)
  }

  /** `x_GB`: `1024_MB * x`, which is `_KB` of `_MB`. */
  function GB(x: u64): (r: u64)
    ensures r == KB(MB(x))
    ensures r % 0x4000_0000 == 0
    ensures x < 0x4_0000_0000 ==> r == 0x4000_0000 * x
  {
    Pow2Widths();
    MulModRight(1024, 0x10_0000 * x, Pow2(64));
    ScaledSize(x, 0x4000_0000, 0x4_0000_0000);
    ToUnsigned(MB(1024) * x, 64)
  }

  /** `unit * x` modulo 2^64 for a power-of-two `unit` that divides 2^64
      into `limit` parts: a multiple of `unit`, and exact below `limit`. */
  lemma ScaledSize(x: nat, unit: nat, limit: nat)
    requires Pow2(64) == 0x1_0000_0000_0000_0000 && unit >= 1 && unit * limit == Pow2(64)
    ensures (unit * x) % Pow2(64) % unit == 0
    ensures x < limit ==> (unit * x) % Pow2(64) == unit * x
  {
    ModOfMod(unit * x, unit, limit);
    MulDivExact(x, unit);
    assert unit * x == x * unit;
    if x < limit {
      MulMonotonic(x, limit - 1, unit);
      ModSmall(unit * x, Pow2(64));
    }
  }

  /** Below the wrap-around a size in kilobytes gives its count back. */
  lemma KBRoundTrip(x: u64)
    requires x < 0x40_0000_0000_0000
    ensures KB(x) / 1024 == x
  {
    MulDivExact(x, 1024);
  }

  /** The units: 1 KB is 2^10 bytes, 1 MB 2^20 and 1 GB 2^30, and 2^34 GB
      is 2^64 bytes, which wraps around to 0. */
  lemma SizeUnits()
    ensures KB(1) == 0x400 && MB(1) == 0x10_0000 && GB(1) == 0x4000_0000
    ensures GB(0x4_0000_0000) == 0
  {
    Pow2Widths();
  }
}
