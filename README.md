# BinaryCodeWord in Dafny

A verified model of `BinaryCodeWord`, a C++ class holding a fixed-length binary
codeword packed into 64-bit words (`std::uint64_t`). Bit `i` of a codeword is
bit `i % 64` of word `i / 64`. The class supports:

- construction and `reset` with a positive length;
- `setBit`/`getBit`;
- `isZero`;
- XOR, both allocating (`operator+`) and in place (`operator+=`);
- `==` and `!=`;
- printing as `(` followed by one digit per bit and `)`.

The unused high bits of the last word are kept clear (`maskUnusedBits`). That
is what lets whole-word comparison agree with bit-wise comparison.

Modules, one file each:

- `errors.dfy` (`Errors`): the exceptions as values.
  - `ErrorKind`: `InvalidLength`, `PositionOutOfRange`, `Uninitialized`, `LengthMismatch`.
  - `Result<T>` and `Outcome`.
- `bitseq.dfy` (`BitSeq`): what a codeword means, a `seq<bool>` with bit 0 first.
  - The zero codeword, bit-wise XOR and the printed text.
  - The algebra of XOR.
- `words.dfy` (`Words`): `word_t` as the integers `0 <= w < 2^64`.
  - `^`, `&` and `|` defined bit by bit; `~x` is `2^64 - 1 - x`; `word_t{1} << b` is `2^b`.
  - Lemmas on what each operator does to every bit.
  - A word is determined by its 64 bits.
- `layout.dfy` (`Layout`): the packing.
  - The number of words; `BitsOf`, the bits a buffer holds; `TailClean`, the tail invariant.
  - Buffer-level lemmas for the writes of `setBit`, `operator+`/`operator+=` and `maskUnusedBits`.
  - Under `TailClean`, word comparison is bit comparison.
  - The `int` overflow in `computeNumWords`.
- `codeword.dfy` (`Codeword`): `class BinaryCodeWord`.
  - Fields `length`, `numWords` and `words: array?<Word>`. The array is `null` when the codeword owns no storage.
  - A ghost field `bits`, which `Valid()` ties to the buffer.
  - Every operation is a method proved against `bits`.
- `scenarios.dfy` (`Scenarios`): the repository's unit tests and usage example, as methods whose postconditions are the outcomes those tests expect.

Each exception is returned as a `Result`/`Outcome` before any state changes:

| C++ exception | cause | error |
|---|---|---|
| `std::invalid_argument` | length `<= 0` | `InvalidLength` |
| `std::out_of_range` | bad position | `PositionOutOfRange` |
| `std::runtime_error` from `verifyInitialized` | no storage | `Uninitialized` |
| `std::logic_error` from `requireSized` | no storage | `Uninitialized` |
| `std::invalid_argument` | XOR of different lengths | `LengthMismatch` |

C++ `int` arguments are the newtype `Layout.int32`.

`initialized()`, `verifyInitialized()`, `requireSized()` and `reset()` are used
in the .cpp but not declared in the header. `initialized()` is modelled as
"owns a buffer" (`words != null`). `verifyInitialized` and `requireSized` test
the same condition, so each operation makes that check once.

`isZero` and `operator==` are declared `noexcept` in the header, yet their
definitions throw on a codeword without storage, which would call
`std::terminate`. The model follows the definitions and returns
`Err(Uninitialized)`.

## Model

| member | source | states |
|---|---|---|
| Words.WordOps | include/BinaryCodeWord/BinaryCodeWord.hpp:44-45 | `^`, `&` and `\|` of two `word_t` values are `word_t` values |
| Words.Xor | src/BinaryCodeWord.cpp:123 | `x ^ y` is zero exactly when `x == y` |
| Words.And | src/BinaryCodeWord.cpp:82 | `x & y` is no larger than either operand |
| Words.Or | src/BinaryCodeWord.cpp:80 | `x \| y` is at least either operand and at most their sum |
| Words.Not | src/BinaryCodeWord.cpp:82 | `~x` flips each of the 64 bits of `x` |
| Words.BitMask | src/BinaryCodeWord.cpp:77 | `word_t{1} << b` has bit `b` set and no other |
| Words.LowMask | src/BinaryCodeWord.cpp:180 | `(word_t{1} << used) - 1` has exactly the bits below `used` |
| Words.XorBit | src/BinaryCodeWord.cpp:123 | bit `c` of `x ^ y` is bit `c` of `x` xor bit `c` of `y` |
| Words.AndBit | src/BinaryCodeWord.cpp:82 | bit `c` of `x & y` is the conjunction of their bits `c` |
| Words.OrBit | src/BinaryCodeWord.cpp:80 | bit `c` of `x \| y` is the disjunction of their bits `c` |
| Words.AllOnesBit | src/BinaryCodeWord.cpp:179 | `~word_t{0}` has all 64 bits set and no bit beyond them |
| Words.WordExtensional | include/BinaryCodeWord/BinaryCodeWord.hpp:44-45 | two words with the same 64 bits are the same word |
| Words.MaskTest | src/BinaryCodeWord.cpp:96-98 | `w & (word_t{1} << b)` is nonzero exactly when bit `b` of `w` is set |
| Layout.NumWords | include/BinaryCodeWord/BinaryCodeWord.hpp:51-53 | for `0 < bits <= INT_MAX` the word count `n` is positive, fits in `int` and is `ceil(bits / 64)`: `64(n-1) < bits <= 64n` |
| Layout.ComputeNumWordsAsWritten | include/BinaryCodeWord/BinaryCodeWord.hpp:51-53 | the formula as written, with the `int` sum wrapping: a positive length never gets 0 words, and a positive count is always `ceil(bits / 64)` |
| Layout.ComputeNumWordsAgrees | include/BinaryCodeWord/BinaryCodeWord.hpp:51-53 | for `0 < bits <= INT_MAX - 63` the formula as written gives the intended count |
| Layout.ComputeNumWordsOverflows | include/BinaryCodeWord/BinaryCodeWord.hpp:51-53 | for `bits == INT_MAX` the formula as written gives -33554431 instead of 33554432 |
| Layout.ComputeNumWordsOverflowRange | include/BinaryCodeWord/BinaryCodeWord.hpp:51-53 | every `bits > INT_MAX - 63` gets a negative word count from the formula as written |
| Layout.BitsOf | src/BinaryCodeWord.cpp:94-98 | the codeword's bit `i` is bit `i % 64` of word `i / 64`, for each `i < n` |
| Layout.WithBit | src/BinaryCodeWord.cpp:77-83 | the word `setBit` stores reads back `v` at bit `b` |
| Layout.TailMask | src/BinaryCodeWord.cpp:178-180 | the mask `maskUnusedBits` ands in has exactly the `used` low bits, for `used == 64` too |
| Layout.WithBitBit | src/BinaryCodeWord.cpp:77-83 | the `\|= mask` / `&= ~mask` write sets bit `b` to `v` and keeps every other bit of the word |
| Layout.ZeroWords | src/BinaryCodeWord.cpp:16-17 | a zero-filled buffer holds the all-zero codeword and a clean tail |
| Layout.WithBitAt | src/BinaryCodeWord.cpp:75-83 | rewriting word `p / 64` changes codeword bit `p` only |
| Layout.WriteBit | src/BinaryCodeWord.cpp:75-83 | the `setBit` write updates the bit sequence at `p` alone and keeps a clean tail clean |
| Layout.XorWords | src/BinaryCodeWord.cpp:122-124 | a buffer of word-wise xors holds the bit-wise xor of the operands, and its tail is clean when theirs are |
| Layout.MaskTailAt | src/BinaryCodeWord.cpp:175-182 | after the masking, bit `i` is set exactly when `i < length` and it was set before |
| Layout.MaskTail | src/BinaryCodeWord.cpp:174-183 | masking the last word keeps the first `length` bits and clears every bit beyond |
| Layout.SameBitsSameWords | src/BinaryCodeWord.cpp:156-159 | two buffers with clean tails and equal bits are equal word for word |
| Layout.WordsEqualIffBitsEqual | src/BinaryCodeWord.cpp:154-159 | with clean tails, the buffers are equal word for word if and only if their bits are equal |
| Layout.ZeroWordsIffZeroBits | src/BinaryCodeWord.cpp:104-107 | with a clean tail, every word is zero if and only if every bit is zero |
| BitSeq.ZerosAreZero | src/BinaryCodeWord.cpp:101-108 | a codeword is the zero codeword of its length if and only if none of its bits is set |
| BitSeq.XorCommutative | src/BinaryCodeWord.cpp:110-127 | `a + b == b + a` on bits |
| BitSeq.XorAssociative | src/BinaryCodeWord.cpp:110-127 | `(a + b) + c == a + (b + c)` on bits |
| BitSeq.XorZeroIdentity | src/BinaryCodeWord.cpp:110-127 | adding the zero codeword changes nothing |
| BitSeq.XorSelfIsZero | src/BinaryCodeWord.cpp:129-145 | `a + a` is the zero codeword |
| BitSeq.XorCancels | src/BinaryCodeWord.cpp:129-145 | adding `x` twice gives back the codeword you started from |
| BitSeq.XorZeroIffEqual | src/BinaryCodeWord.cpp:147-160 | two codewords of one length are equal if and only if their sum is zero |
| BitSeq.DigitsAt | src/BinaryCodeWord.cpp:167-169 | digit `i` of the printed bits is `1` when bit `i` is set and `0` otherwise |
| BitSeq.RenderedShape | src/BinaryCodeWord.cpp:162-172 | the text is `(`, then digit `i` at position `i + 1` for each bit in ascending order, then `)` |
| Codeword.BinaryCodeWord.Initialized | src/BinaryCodeWord.cpp:192 | `initialized()`: a valid codeword owns a buffer exactly when its length is positive |
| Codeword.BinaryCodeWord.Odd | src/BinaryCodeWord.cpp:79 | `value & 1` is bit 0 of the two's-complement pattern of `value` |
| Codeword.BinaryCodeWord.Length | include/BinaryCodeWord/BinaryCodeWord.hpp:21 | `length()` is the number of bits held, and 0 without storage |
| Codeword.BinaryCodeWord.Empty | include/BinaryCodeWord/BinaryCodeWord.hpp:47-49 | the field defaults: no storage, length 0, no words |
| Codeword.BinaryCodeWord.New | src/BinaryCodeWord.cpp:6-8 | fails with `InvalidLength` exactly when `length <= 0`; otherwise gives a new codeword of that length with every bit 0 |
| Codeword.BinaryCodeWord.Reset | src/BinaryCodeWord.cpp:10-18 | a length `<= 0` fails with `InvalidLength` and nothing changes; otherwise the length is recorded, there are `ceil(length / 64)` words in a new buffer, and every bit is 0 |
| Codeword.BinaryCodeWord.CopyBuffer | src/BinaryCodeWord.cpp:25-26 | a new buffer with the same words |
| Codeword.BinaryCodeWord.Copy | src/BinaryCodeWord.cpp:20-30 | same length, word count, storage presence and bits as `other`, in a buffer of its own |
| Codeword.BinaryCodeWord.CopyFrom | src/BinaryCodeWord.cpp:41-55 | on itself nothing changes; otherwise it takes `other`'s length, word count and bits in a new buffer, and `other` keeps its bits |
| Codeword.BinaryCodeWord.Move | src/BinaryCodeWord.cpp:32-39 | takes `other`'s buffer, length, word count and bits; `other` ends with length 0, no words and no storage |
| Codeword.BinaryCodeWord.MoveFrom | src/BinaryCodeWord.cpp:57-68 | on itself nothing changes; otherwise as the move constructor |
| Codeword.BinaryCodeWord.MaskUnusedBits | src/BinaryCodeWord.cpp:174-183 | afterwards no bit at or beyond `length` is set, the codeword's bits are unchanged, the words before the last are unchanged, and nothing changes when `length % 64 == 0` |
| Codeword.BinaryCodeWord.SetBit | src/BinaryCodeWord.cpp:70-87 | no storage: `Uninitialized`, checked first; `position < 0` or `position >= length`: `PositionOutOfRange`; either failure leaves everything unchanged; otherwise bit `position` becomes `value & 1`, every other bit is kept, and the tail stays clean |
| Codeword.BinaryCodeWord.GetBit | src/BinaryCodeWord.cpp:89-99 | the same two errors, in the same order; otherwise 1 if bit `position` is set and 0 if not |
| Codeword.BinaryCodeWord.IsZero | src/BinaryCodeWord.cpp:101-108 | `Uninitialized` without storage; otherwise true exactly when every bit is 0 |
| Codeword.BinaryCodeWord.Plus | src/BinaryCodeWord.cpp:110-127 | `Uninitialized` if either operand has no storage; `LengthMismatch` if the lengths differ; otherwise a new codeword of the same length whose bits are the xor of the operands' |
| Codeword.BinaryCodeWord.XorLoop | src/BinaryCodeWord.cpp:122-124 | word `i` of the result is `a[i] ^ b[i]` for every `i` |
| Codeword.BinaryCodeWord.XorAssign | src/BinaryCodeWord.cpp:129-145 | the same errors as `+`, with nothing changed; otherwise the bits become the old bits xor `rhs`'s old bits, even when `rhs` is the codeword itself; a distinct `rhs` is unchanged |
| Codeword.BinaryCodeWord.Equals | src/BinaryCodeWord.cpp:147-160 | `Uninitialized` if either side has no storage; otherwise true exactly when the two bit sequences are equal, so false when the lengths differ |
| Codeword.BinaryCodeWord.NotEquals | include/BinaryCodeWord/BinaryCodeWord.hpp:35-37 | the negation of `==`, with the same error |
| Codeword.BinaryCodeWord.Render | src/BinaryCodeWord.cpp:162-172 | `Uninitialized` without storage; otherwise the text `(`, the digits of the bits, then `)` |
| Scenarios.Make | tests/test_BinaryCodeWord.cpp:23-27 | a new codeword after `setBit(i, 1)` at each requested position holds exactly the requested bits |
| Scenarios.Observe | examples/basic_usage.cpp:18 | reading `getBit(i)` for `i` below `length()` gives each bit as 0 or 1, in order |
| Scenarios.InitializesToZero | tests/test_BinaryCodeWord.cpp:4-9 | a newly constructed 5-bit codeword reads 0 everywhere |
| Scenarios.SetAndGetBit | tests/test_BinaryCodeWord.cpp:11-21 | `setBit(2, 1)` and `setBit(2, 7)` read back 1; `setBit(2, 0)` reads back 0 |
| Scenarios.PlusIsXor | tests/test_BinaryCodeWord.cpp:23-37 | {0, 2} + {2, 3} reads 1, 0, 0, 1 |
| Scenarios.PlusEqualsChains | tests/test_BinaryCodeWord.cpp:39-50 | `+=` cancels bit 1, which both sides hold, then sets bit 2 |
| Scenarios.Equality | tests/test_BinaryCodeWord.cpp:52-59 | two newly constructed 3-bit codewords are equal, then differ after one `setBit`, then are equal again |
| Scenarios.LengthsMustMatch | tests/test_BinaryCodeWord.cpp:61-65 | both `+` and `+=` on lengths 3 and 4 fail with `LengthMismatch` |
| Scenarios.BasicUsage | examples/basic_usage.cpp:5-21 | `a + b` reads 10001000 and equals `a` after `a += b` |
| Scenarios.Printing | src/BinaryCodeWord.cpp:162-172 | a 3-bit codeword with bits 0 and 2 set prints as `(101)` |
| Scenarios.InvalidLengths | src/BinaryCodeWord.cpp:185-189 | lengths 0 and -5 are refused |
| Scenarios.BadAccess | src/BinaryCodeWord.cpp:197-207 | positions -1 and `length` are out of range; a moved-from codeword has length 0 and reports `Uninitialized` |
| Scenarios.CopyIsIndependent | src/BinaryCodeWord.cpp:20-30 | setting a bit in a copy leaves the original unchanged |
| Scenarios.CopyAssignIsIndependent | src/BinaryCodeWord.cpp:41-55 | the same for copy assignment onto a codeword of another length |

## Left out

- The `std::ostream` mechanics of `operator<<`. `Render` returns the text that would be written.
- The identity and message of each exception class, and `include/BinaryCodeWord/detail/ErrorMessages.hpp`. The .cpp does not use its constants.
- `std::unique_ptr` ownership and destruction. The buffer is a Dafny array; a moved-from codeword holds `null`.
- The `std::terminate` that a throw from the `noexcept` `isZero` and `operator==` would cause. These return `Err(Uninitialized)`.
- `word_t` is modelled as an integer in `[0, 2^64)`, with `^`, `&`, `|`, `~` and `<<` defined arithmetically rather than as machine bit-vector operations.
- Codeword.BinaryCodeWord.MaskUnusedBits: the `used == WORD_BITS` branch cannot be reached, since `used` is `m_length % 64`. The model keeps it in `Layout.TailMask`, whose contract covers it, but no contract of `MaskUnusedBits` can mention it.
- Codeword.BinaryCodeWord.Reset: uses the corrected word count `Layout.NumWords`, not the overflowing formula; see Findings.

## Findings

| source | as written | input that shows it | evidently intended | confidence | as-written member | corrected member |
|---|---|---|---|---|---|---|
| include/BinaryCodeWord/BinaryCodeWord.hpp:51-53 | `(bits + WORD_BITS - 1) / WORD_BITS` adds 63 in `int` arithmetic, so it overflows for `bits > INT_MAX - 63` (undefined behaviour; two's-complement wrap-around gives a negative count) | `reset(2147483647)` passes the length check, then computes -33554431 words (with wrap-around) instead of 33554432; `make_unique` then gets a huge `size_t` and throws after `m_length` and `m_numWords` have already been overwritten | `ceil(bits / 64)` for every positive `int`, for instance `(bits - 1) / 64 + 1` | not executed | Layout.ComputeNumWordsOverflows | Layout.NumWords |
