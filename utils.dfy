/**
 Byte helpers of the CHIP-8 interpreter (src/utils.cpp): splitting a byte
 into its two nibbles, reading one bit counted from the most significant
 end, and collecting the decimal digits of a byte, most significant first,
 into a caller-owned vector (the decomposition behind BCD storage).

 `std::uint8_t` is `uint8`, the 8-bit bit-vector type, so the mask-and-shift
 expressions and the `/ 10`, `% 10` of the source are evaluated exactly as
 unsigned 8-bit operations. Contracts state what they mean with integer
 division and remainder on the byte's value (`b as int`), so every property
 below relates the bit-level code to an arithmetic reference definition.
 */
module Utils {

  type uint8 = bv8

  // ---------------------------------------------------------------------------
  // Arithmetic reference definitions
  // ---------------------------------------------------------------------------

  /** 2 to the power k. */
  function Pow2(k: nat): (p: nat)
    ensures p >= 1
  {
    if k == 0 then 1 else 2 * Pow2(k - 1)
  }

  /** Bit k of b, with bit 0 the least significant, by division. */
  predicate Bit(b: uint8, k: nat) {
    (b as int / Pow2(k)) % 2 == 1
  }

  /** d * m is at least d when m is positive. */
  lemma MulAtLeast(d: nat, m: int)
    requires m >= 1
    ensures d * m >= d
  {
    assert d * m == d + d * (m - 1);
  }

  /** Integer division is determined by a quotient and an in-range remainder. */
  lemma DivUnique(x: nat, d: nat, q: int, r: int)
    requires d >= 1 && 0 <= r < d && x == d * q + r
    ensures x / d == q
  {
    var q', r' := x / d, x % d;
    assert x == d * q' + r';
    assert d * (q' - q) == r - r';
    if q' > q { MulAtLeast(d, q' - q); assert false; }
    if q > q' { MulAtLeast(d, q - q'); assert false; }
  }

  /** x / (2p) == (x / p) / 2. */
  lemma DivTwice(x: nat, p: nat)
    requires p >= 1
    ensures x / (2 * p) == (x / p) / 2
  {
    var q, r := x / p, x % p;
    var q2, r2 := q / 2, q % 2;
    assert x == (2 * p) * q2 + (p * r2 + r) by {
      assert x == p * q + r;
      assert q == 2 * q2 + r2;
      assert p * q == p * (2 * q2) + p * r2;
    }
    assert 0 <= p * r2 + r < 2 * p;
    DivUnique(x, 2 * p, q2, p * r2 + r);
  }

  /** (q / 2) * (2p) + (q % 2) * p == q * p. */
  lemma HalvesJoin(q: nat, p: nat)
    ensures (q / 2) * (2 * p) + (q % 2) * p == q * p
  {
    assert q == 2 * (q / 2) + q % 2;
    calc {
      q * p;
      (2 * (q / 2) + q % 2) * p;
      (q / 2) * (2 * p) + (q % 2) * p;
    }
  }

  // ---------------------------------------------------------------------------
  // nibble_1, nibble_2
  // ---------------------------------------------------------------------------

  /** The high nibble: `(byte & 0xF0) >> 4`. */
  function Nibble1(b: uint8): (r: uint8)
    ensures r <= 15
    ensures r as int == b as int / 16
  {
    (b & 0xF0) >> 4
  }

  /** The low nibble: `byte & 0x0F`. */
  function Nibble2(b: uint8): (r: uint8)
    ensures r <= 15
    ensures r as int == b as int % 16
  {
    b & 0x0F
  }

  /** Splitting a byte into nibbles and joining them gives the byte back. */
  lemma NibblesReassemble(b: uint8)
    ensures Nibble1(b) as int * 16 + Nibble2(b) as int == b as int
  {
  }

  /** Joining two nibbles and splitting the byte gives the nibbles back. */
  lemma NibblesSplit(hi: uint8, lo: uint8)
    requires hi <= 15 && lo <= 15
    ensures Nibble1(hi * 16 + lo) == hi
    ensures Nibble2(hi * 16 + lo) == lo
  {
  }

  // ---------------------------------------------------------------------------
  // get_bit
  // ---------------------------------------------------------------------------

  /** The bound that get_bit means to check: the index names one of 8 bits. */
  predicate IndexInRange(index: uint8) {
    index <= 7
  }

  /** Every index the bound admits names a bit position 7 - index in 0..7. */
  lemma IndexInRangeNamesBit(index: uint8)
    ensures IndexInRange(index) <==> 0 <= 7 - index as int <= 7
  {
  }

  /**
   The check as the source writes it, `assert(0 <= index <= 7)`: C++ reads it
   as `(0 <= index) <= 7`, a bool (0 or 1) compared with 7.
   */
  predicate AssertedIndexCheck(index: uint8) {
    (if 0 <= index then 1 else 0) <= 7
  }

  /** The written check admits every index, 8 among them, so it checks nothing. */
  lemma AssertedIndexCheckAdmitsOutOfRange()
    ensures forall index: uint8 :: AssertedIndexCheck(index)
    ensures AssertedIndexCheck(8) && !IndexInRange(8)
  {
  }

  /** `(byte & 1 << i) >> i` for the `int` shift amount i, read as a bool (nonzero is true). */
  function MaskShift(b: uint8, i: nat): bool
    requires i <= 7
  {
    (b & (1 << i)) >> i != 0
  }

  /** Shifting right by one halves. */
  lemma ShiftRightOne(x: uint8)
    ensures (x >> 1) as int == x as int / 2
  {
  }

  /** A shift right by i is a shift by i - 1 followed by a shift by one. */
  lemma ShiftStep(b: uint8, i: nat)
    requires 1 <= i <= 7
    ensures b >> i == (b >> (i - 1)) >> 1
  {
  }

  /** Shifting right by i divides by 2^i. */
  lemma {:induction false} ShiftIsDiv(b: uint8, i: nat)
    requires i <= 7
    ensures (b >> i) as int == b as int / Pow2(i)
  {
    if i > 0 {
      ShiftIsDiv(b, i - 1);
      ShiftStep(b, i);
      ShiftRightOne(b >> (i - 1));
      DivTwice(b as int, Pow2(i - 1));
    }
  }

  /** The mask-and-shift is the lowest bit of the shifted byte. */
  lemma MaskShiftIsLowBit(b: uint8, i: nat)
    requires i <= 7
    ensures MaskShift(b, i) <==> (b >> i) & 1 == 1
  {
  }

  /** The lowest bit is set exactly when the value is odd. */
  lemma LowBitIsOdd(x: uint8)
    ensures x & 1 == 1 <==> x as int % 2 == 1
  {
  }

  /** The mask-and-shift reads bit i of b. */
  lemma MaskShiftIsBit(b: uint8, i: nat)
    requires i <= 7
    ensures MaskShift(b, i) <==> Bit(b, i)
  {
    MaskShiftIsLowBit(b, i);
    LowBitIsOdd(b >> i);
    ShiftIsDiv(b, i);
  }

  /** Bit `index` of b counted from the most significant end: bit 7 - index. */
  function GetBit(b: uint8, index: uint8): (r: bool)
    requires IndexInRange(index)
    ensures r <==> Bit(b, 7 - index as int)
  {
    var i := 7 - index as int;
    MaskShiftIsBit(b, i);
    MaskShift(b, i)
  }

  /** Index 0 reads the most significant bit, index 7 the least significant. */
  lemma GetBitEnds(b: uint8)
    ensures GetBit(b, 0) <==> b >= 128
    ensures GetBit(b, 7) <==> b % 2 == 1
  {
    assert Pow2(7) == 128;
  }

  /** The sum over index j < k of (GetBit(b, j) ? 1 : 0) * 2^(7 - j). */
  function BitSum(b: uint8, k: uint8): nat
    requires k <= 8
  {
    if k == 0 then 0
    else BitSum(b, k - 1) + (if GetBit(b, k - 1) then Pow2(8 - k as int) else 0)
  }

  /** Clearing the low bits below 2p and adding back the bit at p clears only below p. */
  lemma HighPartStep(x: nat, p: nat)
    requires p >= 1
    ensures (x / (2 * p)) * (2 * p) + ((x / p) % 2) * p == (x / p) * p
  {
    DivTwice(x, p);
    HalvesJoin(x / p, p);
  }

  /** Decrementing a nonzero byte decrements its value. */
  lemma PredecessorValue(k: uint8)
    requires k > 0
    ensures (k - 1) as int == k as int - 1
  {
  }

  /** One more step of BitSum adds the bit at weight 2^(8 - k). */
  lemma BitSumStep(b: uint8, k: uint8)
    requires 0 < k <= 8
    ensures BitSum(b, k) == BitSum(b, k - 1) + ((b as int / Pow2(8 - k as int)) % 2) * Pow2(8 - k as int)
  {
    var i := 8 - k as int;
    assert GetBit(b, k - 1) <==> Bit(b, i) by {
      PredecessorValue(k);
    }
    var q := b as int / Pow2(i);
    assert (if Bit(b, i) then Pow2(i) else 0) == (q % 2) * Pow2(i);
  }

  /** The first k bits, read from the top, sum to b with its low 8 - k bits cleared. */
  lemma {:induction false} BitSumIsHighPart(b: uint8, k: uint8)
    requires k <= 8
    ensures BitSum(b, k) == (b as int / Pow2(8 - k as int)) * Pow2(8 - k as int)
  {
    if k == 0 {
      assert Pow2(8) == 256;
    } else {
      var p := Pow2(8 - k as int);
      PredecessorValue(k);
      assert Pow2(8 - (k - 1) as int) == 2 * p;
      BitSumIsHighPart(b, k - 1);
      BitSumStep(b, k);
      HighPartStep(b as int, p);
    }
  }

  /** Reassembly: the eight bits read by GetBit, weighted 2^(7 - index), sum to b. */
  lemma BitsReassemble(b: uint8)
    ensures BitSum(b, 8) == b as int
  {
    var all: uint8 := 8;
    assert all as int == 8;
    BitSumIsHighPart(b, all);
    assert Pow2(8 - all as int) == 1;
  }

  // ---------------------------------------------------------------------------
  // collect_digits
  // ---------------------------------------------------------------------------

  /** The decimal digits of num, most significant first. */
  function Digits(num: uint8): seq<uint8>
  {
    (if num > 9 then Digits(num / 10) else []) + [num % 10]
  }

  /** The number written by a digit sequence, most significant first (acc * 10 + d). */
  function Value(s: seq<uint8>): nat
  {
    if s == [] then 0 else Value(s[..|s| - 1]) * 10 + s[|s| - 1] as int
  }

  /** A digit sequence as collect_digits produces it: 1 to 3 decimal digits, no leading zero unless alone. */
  predicate WellFormedDigits(s: seq<uint8>) {
    1 <= |s| <= 3 &&
    (forall i :: 0 <= i < |s| ==> s[i] <= 9) &&
    (|s| > 1 ==> s[0] != 0)
  }

  /** Every collected digit is a decimal digit. */
  lemma {:induction false} DigitsAreDecimal(num: uint8)
    ensures forall i :: 0 <= i < |Digits(num)| ==> Digits(num)[i] <= 9
  {
    if num > 9 {
      DigitsAreDecimal(num / 10);
    }
  }

  /** One digit below 10, two below 100, three otherwise. */
  lemma {:induction false} DigitsLength(num: uint8)
    ensures |Digits(num)| == if num < 10 then 1 else if num < 100 then 2 else 3
  {
    if num > 9 {
      DigitsLength(num / 10);
    }
  }

  /** The first digit is zero exactly when num is zero. */
  lemma {:induction false} DigitsLeading(num: uint8)
    ensures |Digits(num)| > 0
    ensures Digits(num)[0] == 0 <==> num == 0
  {
    if num > 9 {
      DigitsLeading(num / 10);
    }
  }

  /** The ones digit is always last. */
  lemma DigitsOnesLast(num: uint8)
    ensures |Digits(num)| > 0 && Digits(num)[|Digits(num)| - 1] == num % 10
  {
  }

  /** Folding the digits as acc * 10 + d gives num back. */
  lemma {:induction false} DigitsValue(num: uint8)
    ensures Value(Digits(num)) == num as int
  {
    var s := Digits(num);
    assert s[..|s| - 1] == if num > 9 then Digits(num / 10) else [];
    DivModTen(num);
    if num > 9 {
      DigitsValue(num / 10);
    }
  }

  /** The digits of a byte are well formed. */
  lemma DigitsWellFormed(num: uint8)
    ensures WellFormedDigits(Digits(num))
  {
    DigitsAreDecimal(num);
    DigitsLength(num);
    DigitsLeading(num);
  }

  /** The quotient and remainder by 10 keep their values. */
  lemma DivModTen(x: uint8)
    ensures (x / 10) as int == x as int / 10
    ensures (x % 10) as int == x as int % 10
  {
  }

  /** A byte is determined by its value. */
  lemma ValueDeterminesByte(x: uint8, y: uint8)
    requires x as int == y as int
    ensures x == y
  {
  }

  /** Bytes compare as their values do. */
  lemma ByteOrder(x: uint8, y: uint8)
    ensures x < y <==> x as int < y as int
  {
  }

  /** If num writes v * 10 + d for a digit d, then num % 10 is d and num / 10 writes v. */
  lemma LastDigitSplit(num: uint8, v: int, d: uint8)
    requires d <= 9 && num as int == v * 10 + d as int
    ensures num % 10 == d
    ensures (num / 10) as int == v
  {
    assert d as int < 10;
    DivUnique(num as int, 10, v, d as int);
    DivModTen(num);
    ValueDeterminesByte(num % 10, d);
  }

  /** Dropping the last digit of a sequence of two or more keeps it well formed. */
  lemma InitWellFormed(s: seq<uint8>)
    requires WellFormedDigits(s) && |s| > 1
    ensures WellFormedDigits(s[..|s| - 1])
  {
    var init := s[..|s| - 1];
    assert forall i :: 0 <= i < |init| ==> init[i] == s[i];
  }

  /** A single digit d writes the byte d, whose digits are [d]. */
  lemma SingleDigit(s: seq<uint8>, num: uint8)
    requires WellFormedDigits(s) && |s| == 1 && Value(s) == num as int
    ensures Digits(num) == s
  {
    assert s[..0] == [];
    LastDigitSplit(num, 0, s[0]);
    ByteOrder(num, 10);
  }

  /** Two or more digits that write num: num > 9, the last digit is num % 10 and the others write num / 10. */
  lemma SplitDigits(s: seq<uint8>, num: uint8)
    requires WellFormedDigits(s) && |s| > 1 && Value(s) == num as int
    ensures num > 9
    ensures s == s[..|s| - 1] + [num % 10]
    ensures WellFormedDigits(s[..|s| - 1]) && Value(s[..|s| - 1]) == (num / 10) as int
  {
    var init, d := s[..|s| - 1], s[|s| - 1];
    LastDigitSplit(num, Value(init), d);
    InitWellFormed(s);
    ValuePositive(init);
    ByteOrder(num, 10);
  }

  /** A well-formed digit sequence that writes num is exactly the digits of num. */
  lemma {:induction false} ValueDigits(s: seq<uint8>, num: uint8)
    requires WellFormedDigits(s) && Value(s) == num as int
    ensures Digits(num) == s
  {
    if |s| == 1 {
      SingleDigit(s, num);
    } else {
      SplitDigits(s, num);
      ValueDigits(s[..|s| - 1], num / 10);
    }
  }

  /** A digit sequence with a nonzero first digit writes a positive number. */
  lemma {:induction false} ValuePositive(s: seq<uint8>)
    requires |s| >= 1 && s[0] != 0
    ensures Value(s) > 0
  {
    if |s| == 1 {
      assert s[..0] == [];
    } else {
      var init := s[..|s| - 1];
      assert init[0] == s[0];
      ValuePositive(init);
    }
  }

  /** The value stored for 229 is the three digits 2, 2, 9. */
  lemma Digits229()
    ensures Digits(229) == [2, 2, 9]
  {
  }

  /** A `std::vector<std::uint8_t>` owned by the caller. */
  class ByteVector {
    var elems: seq<uint8>

    constructor ()
      ensures elems == []
    {
      elems := [];
    }

    /** `push_back`: appends one element at the end. */
    method PushBack(x: uint8)
      modifies this
      ensures elems == old(elems) + [x]
    {
      elems := elems + [x];
    }
  }

  /**
   collect_digits: recurses on num / 10 while num > 9, then pushes num % 10,
   so the vector's old contents stay as a prefix and the digits of num follow.
   */
  method CollectDigits(digits: ByteVector, num: uint8)
    modifies digits
    decreases num
    ensures digits.elems == old(digits.elems) + Digits(num)
    ensures old(digits.elems) <= digits.elems
  {
    if num > 9 {
      CollectDigits(digits, num / 10);
    }
    digits.PushBack(num % 10);
  }
}
