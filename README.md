# CHIP-8 interpreter byte helpers

This project models the byte helpers of a small CHIP-8 interpreter written
in C++ (`src/utils.cpp`). An interpreter uses them to decode instructions
and to store binary-coded decimal values:

- `nibble_1` and `nibble_2` split a byte into its high and low 4-bit halves
  with mask-and-shift expressions;
- `get_bit` reads one bit of a byte counted from the most significant end
  (index 0 is bit 7, index 7 is bit 0);
- `collect_digits` appends the decimal digits of a byte to a caller-owned
  `std::vector<std::uint8_t>`, most significant digit first, by recursing on
  `num / 10` before pushing `num % 10`.

Everything is in module `Utils` (`utils.dfy`). `std::uint8_t` is `uint8`,
the 8-bit bit-vector type, so the mask-and-shift expressions and the
`/ 10`, `% 10` of `collect_digits` are evaluated exactly as unsigned 8-bit
operations. The shift amount of `get_bit` is the `int` `7 - index`, as in the
source. Contracts state what the code means with integer division and
remainder on the byte's value (`Pow2`, `Bit`). `collect_digits` is a recursive
method over a `ByteVector` class whose `elems` field is the vector's
contents. Its postcondition ties the new contents to the pure function
`Digits`, and lemmas state what `Digits` promises: decimal digits, length,
leading digit, ones digit last, and a round trip in both directions with
`Value`, the most-significant-first fold `acc * 10 + d`.

## Model

| member | source | states |
|---|---|---|
| Utils.Nibble1 | src/utils.cpp:6-8 | the high nibble is at most 15 and equals `b / 16` |
| Utils.Nibble2 | src/utils.cpp:10-12 | the low nibble is at most 15 and equals `b % 16` |
| Utils.NibblesReassemble | src/utils.cpp:6-12 | `nibble_1(b) * 16 + nibble_2(b) == b` for every byte |
| Utils.NibblesSplit | src/utils.cpp:6-12 | for nibbles `hi, lo <= 15`, splitting `hi * 16 + lo` gives back `hi` and `lo` |
| Utils.ShiftIsDiv | src/utils.cpp:17 | shifting a byte right by `i` in 0..7 divides its value by `2^i` |
| Utils.MaskShiftIsBit | src/utils.cpp:17 | `(byte & 1 << i) >> i` is nonzero exactly when bit `i` of the byte is set, for `i` in 0..7 |
| Utils.GetBit | src/utils.cpp:14-18 | for `index <= 7`, the result is true exactly when bit `7 - index` of the byte is set |
| Utils.GetBitEnds | src/utils.cpp:14-18 | index 0 reads the most significant bit (`b >= 128`), index 7 the least significant (`b` odd) |
| Utils.BitSumIsHighPart | src/utils.cpp:14-18 | the bits at indices below `k`, weighted `2^(7 - index)`, sum to the byte with its low `8 - k` bits cleared |
| Utils.BitsReassemble | src/utils.cpp:14-18 | the sum over index 0..7 of `(get_bit(b, index) ? 1 : 0) * 2^(7 - index)` equals `b` |
| Utils.IndexInRangeNamesBit | src/utils.cpp:15-16 | the intended bound `index <= 7` holds exactly when `7 - index` is a bit position 0..7 |
| Utils.AssertedIndexCheckAdmitsOutOfRange | src/utils.cpp:15 | the assertion as written holds for every index, including 8, which the intended bound rejects |
| Utils.ByteVector.PushBack | src/utils.cpp:24 | `push_back` appends exactly one element at the end of the vector |
| Utils.CollectDigits | src/utils.cpp:20-25 | the vector's old contents are kept as a prefix and exactly the digits of `num` are appended after them |
| Utils.DigitsAreDecimal | src/utils.cpp:20-25 | every appended digit is in 0..9 |
| Utils.DigitsLength | src/utils.cpp:20-25 | 1 digit when `num < 10`, 2 when `10 <= num < 100`, 3 otherwise |
| Utils.DigitsLeading | src/utils.cpp:20-25 | the first appended digit is zero exactly when `num == 0` |
| Utils.DigitsOnesLast | src/utils.cpp:24 | the last appended digit is the ones digit `num % 10` |
| Utils.DigitsValue | src/utils.cpp:20-25 | folding the appended digits as `acc * 10 + d`, most significant first, gives back `num` |
| Utils.DigitsWellFormed | src/utils.cpp:20-25 | the appended digits are 1 to 3 decimal digits with no leading zero unless `num == 0` |
| Utils.ValueDigits | src/utils.cpp:20-25 | every well-formed digit sequence whose value is a byte is exactly the digits that byte produces, so the decomposition is unique |
| Utils.Digits229 | src/utils.cpp:20-25 | the byte 229 produces the digits `[2, 2, 9]` |

## Left out

- `show_usage` (src/utils.cpp:27-33): it only writes a help text to the standard error stream.
- src/main.cpp: window and surface creation through SDL, a fixed delay and console output; it is I/O over a foreign library with no algorithmic content.
- The fetch-decode-execute interpreter, display buffer, timers, call stack and keypad: no implementation of them appears in src/utils.cpp or src/main.cpp, so there is no code to model them against.
- Utils.GetBit: requires `index <= 7`, the bound the source means to assert; what the source does for a larger index is not modelled, because `7 - index` is then negative and the shift `1 << i` by a negative amount is undefined behaviour in C++.
- The runtime effect of `assert` (abort with a message) is not modelled; the written assertion is modelled as a predicate, see Findings.
- `collect_digits` is modelled as the recursion the source uses, not as a loop; the vector is modelled by its contents only (no capacity, reallocation or allocation failure).

## Findings

| source | as written | input that shows it | evidently intended | confidence | as-written member | corrected member |
|---|---|---|---|---|---|---|
| src/utils.cpp:15 | `assert(0 <= index <= 7)` is parsed as `(0 <= index) <= 7`: a bool (0 or 1) compared with 7, which is always true | `index == 8`: the assertion passes, then `7 - index` is -1 and `1 << -1` is undefined | the bound `index <= 7` (with `index` unsigned, `0 <= index` always holds) | high; not executed | Utils.AssertedIndexCheckAdmitsOutOfRange | Utils.GetBit |
