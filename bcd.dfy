/** `Helpers::incBCDByte`: the increment of a packed binary-coded-decimal
    byte, whose high nibble holds the tens digit and whose low nibble holds
    the units digit. */
module Bcd {
  import opened Arithmetic
  import opened Bits
  import opened CppInt

  /** Whether both nibbles of `b` are decimal digits. */
  predicate IsBcd(b: u8) {
    b / 16 < 10 && b % 16 < 10
  }

  /** The decimal number a BCD byte stands for. */
  function BcdValue(b: u8): (n: nat)
    requires IsBcd(b)
    ensures n < 100
  {
    b / 16 * 10 + b % 16
  }

  /** The BCD byte of a number below 100. */
  function ToBcd(n: nat): (b: u8)
    requires n < 100
    ensures IsBcd(b) && BcdValue(b) == n
  {
    DivModSplit(n % 10, n / 10, 16);
    n / 10 * 16 + n % 10
  }

  /** Every BCD byte is the encoding of its value. */
  lemma BcdRoundTrip(b: u8)
    requires IsBcd(b)
    ensures ToBcd(BcdValue(b)) == b
  {
    var n := BcdValue(b);
    DivModSplit(b % 16, b / 16, 10);
    assert n / 10 == b / 16 && n % 10 == b % 16;
  }

  /** `incBCDByte(value)`: when the units digit is 9 the byte gets 7 more
      than a plain increment, 0x?9 + 7 = 0x?0 + 0x10, which carries into the
      tens digit; otherwise it is incremented. The sum is computed on `int`
      and converted back to `u8`, so it wraps around at 0x100. For a BCD
      byte below 0x99 the result is the BCD byte of the next number. */
  function IncBcdByte(value: u8): (r: u8)
    ensures IsBcd(value) && value < 0x99 ==> IsBcd(r) && BcdValue(r) == BcdValue(value) + 1
    ensures value % 16 != 9 ==> r == (value + 1) % 0x100
    ensures value % 16 == 9 ==> r == (value + 7) % 0x100
  {
    AndLowMask(value, 4);
    IncBcdStep(value);
    if And(value, 0xF) == 9 then ToUnsigned(value + 7, 8) else ToUnsigned(value + 1, 8)
  }

  lemma IncBcdStep(value: u8)
    ensures IsBcd(value) && value < 0x99 && value % 16 == 9 ==>
      IsBcd(value + 7) && BcdValue(value + 7) == BcdValue(value) + 1
    ensures IsBcd(value) && value < 0x99 && value % 16 != 9 ==>
      IsBcd(value + 1) && BcdValue(value + 1) == BcdValue(value) + 1
  {
    if IsBcd(value) && value < 0x99 {
      var tens, units := value / 16, value % 16;
      assert value == tens * 16 + units;
      if units == 9 {
        assert tens < 9;
        DivModSplit(0, tens + 1, 16);
        assert value + 7 == 0 + (tens + 1) * 16;
      } else {
        DivModSplit(units + 1, tens, 16);
      }
    }
  }

  /** Counting in BCD: incrementing the encoding of `n` gives the encoding
      of `n + 1`, for every `n` below 99. */
  lemma IncBcdByteCounts(n: nat)
    requires n < 99
    ensures IncBcdByte(ToBcd(n)) == ToBcd(n + 1)
  {
    var b := ToBcd(n);
    var r := IncBcdByte(b);
    assert b < 0x99 by {
      assert n / 10 <= 9;
      if n / 10 == 9 {
        assert n % 10 < 9;
      }
    }
    BcdRoundTrip(r);
  }

  /** A units digit of 9 carries into the tens digit; any other is
      incremented in place. */
  lemma IncBcdByteExamples()
    ensures IncBcdByte(0x09) == 0x10 && IncBcdByte(0x05) == 0x06
    ensures IncBcdByte(0x49) == 0x50 && IncBcdByte(0x98) == 0x99
  {
    assert 0x09 % 16 == 9 && 0x49 % 16 == 9;
    assert 0x05 % 16 != 9 && 0x98 % 16 != 9;
  }

  /** Outside the range it is written for: 0x99 gives 0xA0, which is not
      BCD, and the top of the byte wraps around to 0. */
  lemma IncBcdByteOutOfRange()
    ensures IncBcdByte(0x99) == 0xA0 && !IsBcd(0xA0)
    ensures IncBcdByte(0xF9) == 0 && IncBcdByte(0xFF) == 0
  {
  }
}
