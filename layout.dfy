/** The storage layout declared in the header: bits packed into 64-bit words,
    bit `i` of a codeword being bit `i % 64` of word `i / 64`. */
module Layout {
  import opened BitSeq
  import opened Words

  const INT32_MIN: int := -0x8000_0000
  const INT32_MAX: int := 0x7fff_ffff

  /** The C++ `int` the interface takes lengths, positions and bit values as. */
  newtype int32 = x: int | -0x8000_0000 <= x < 0x8000_0000

  // ---------------------------------------------------------------------------
  // Number of words

  /** The number of words `computeNumWords` is meant to give: ceil(bits / 64),
      computed so that no intermediate value leaves the range of `int`. */
  function NumWords(bits: int): (n: int)
    requires 0 < bits <= INT32_MAX
    ensures 0 < n <= INT32_MAX
    ensures WORD_BITS * (n - 1) < bits <= WORD_BITS * n
  {
    (bits - 1) / WORD_BITS + 1
  }

  /** Reduction of a mathematical integer to 32-bit two's complement. */
  function Wrap32(x: int): (r: int)
    ensures INT32_MIN <= r <= INT32_MAX
    ensures INT32_MIN <= x <= INT32_MAX ==> r == x
  {
    (x - INT32_MIN) % 0x1_0000_0000 + INT32_MIN
  }

  /** C++ integer division, which truncates toward zero. */
  function TruncDiv(x: int, d: int): int
    requires d > 0
  {
    if x >= 0 then x / d else -((-x) / d)
  }

  /** `computeNumWords` as written: `(bits + WORD_BITS - 1) / WORD_BITS` in
      `int` arithmetic, with the sum wrapping as two's-complement hardware
      does (the C++ standard leaves the overflow undefined).  A positive
      length never gets 0 words, and a positive count is always the right
      one; the wrong counts are negative. */
  function ComputeNumWordsAsWritten(bits: int32): (n: int)
    ensures 0 < bits ==> n != 0
    ensures 0 < bits && 0 < n ==> WORD_BITS * (n - 1) < bits as int <= WORD_BITS * n
  {
    TruncDiv(Wrap32(bits as int + WORD_BITS - 1), WORD_BITS)
  }

  /** Below the overflow threshold the written formula is the intended one. */
  lemma ComputeNumWordsAgrees(bits: int32)
    requires 0 < bits as int <= INT32_MAX - (WORD_BITS - 1)
    ensures ComputeNumWordsAsWritten(bits) == NumWords(bits as int)
  {
  }

  /** `reset(INT_MAX)` passes the length check, but the word count it
      computes is negative instead of 33554432. */
  lemma ComputeNumWordsOverflows()
    ensures NumWords(INT32_MAX) == 33554432
    ensures ComputeNumWordsAsWritten(0x7fff_ffff) == -33554431
  {
  }

  /** Every positive length in the last 63 values of `int` is affected. */
  lemma ComputeNumWordsOverflowRange(bits: int32)
    requires bits as int > INT32_MAX - (WORD_BITS - 1)
    ensures ComputeNumWordsAsWritten(bits) < 0
  {
  }

  // ---------------------------------------------------------------------------
  // Bits of a word buffer

  /** Codeword bit `i` of the buffer `ws`: bit `i % 64` of word `i / 64`. */
  predicate BitAt(ws: seq<Word>, i: nat)
    requires i < WORD_BITS * |ws|
  {
    Bit(ws[i / WORD_BITS], i % WORD_BITS)
  }

  /** The first `n` bits the buffer holds. */
  function BitsOf(ws: seq<Word>, n: nat): (bits: seq<bool>)
    requires n <= WORD_BITS * |ws|
    ensures |bits| == n
    ensures forall i :: 0 <= i < n ==> bits[i] == BitAt(ws, i)
  {
    seq(n, i requires 0 <= i < n => BitAt(ws, i))
  }

  /** The invariant `maskUnusedBits` restores: no bit at or beyond `n` is set. */
  predicate TailClean(ws: seq<Word>, n: nat)
    requires n <= WORD_BITS * |ws|
  {
    forall i :: n <= i < WORD_BITS * |ws| ==> !BitAt(ws, i)
  }

  /** The word `setBit` stores: `w | mask` when `v`, `w & ~mask` otherwise,
      where `mask` is `word_t{1} << b`.  Bit `b` of it reads back as `v`. */
  function WithBit(w: Word, b: nat, v: bool): (r: Word)
    requires b < WORD_BITS
    ensures Bit(r, b) == v
  {
    if v then
      OrBit(w, BitMask(b), b);
      WordOr(w, BitMask(b))
    else
      AndBit(w, Not(BitMask(b)), b);
      WordAnd(w, Not(BitMask(b)))
  }

  /** The mask `maskUnusedBits` ands into the last word when `used` of its
      bits are in use: `~word_t{0}` for a full word, `(word_t{1} << used) - 1`
      otherwise. */
  function TailMask(used: nat): (m: Word)
    requires 0 < used <= WORD_BITS
    ensures forall c: nat :: Bit(m, c) == (c < used)
  {
    if used == WORD_BITS then
      AllOnesBit(Not(0));
      Not(0)
    else
      LowMask(used)
  }

  // ---------------------------------------------------------------------------
  // What the word operations do to the bits

  /** `WithBit` gives bit `b` the value `v` and keeps every other bit. */
  lemma WithBitBit(w: Word, b: nat, v: bool, c: nat)
    requires b < WORD_BITS && c < WORD_BITS
    ensures Bit(WithBit(w, b, v), c) == if c == b then v else Bit(w, c)
  {
    if v {
      OrBit(w, BitMask(b), c);
    } else {
      AndBit(w, Not(BitMask(b)), c);
    }
  }

  /** A buffer of zero words holds only zero bits, the tail included. */
  lemma ZeroWords(ws: seq<Word>, n: nat)
    requires n <= WORD_BITS * |ws|
    requires forall k :: 0 <= k < |ws| ==> ws[k] == 0
    ensures BitsOf(ws, n) == Zeros(n)
    ensures TailClean(ws, n)
  {
    forall i | 0 <= i < WORD_BITS * |ws|
      ensures !BitAt(ws, i)
    {
      ZeroBit(i % WORD_BITS);
    }
  }

  /** Storing `WithBit` into word `p / 64` writes bit `p` and no other. */
  lemma WithBitAt(ws: seq<Word>, p: nat, v: bool, i: nat)
    requires p < WORD_BITS * |ws| && i < WORD_BITS * |ws|
    ensures BitAt(ws[p / WORD_BITS := WithBit(ws[p / WORD_BITS], p % WORD_BITS, v)], i)
            == if i == p then v else BitAt(ws, i)
  {
    if i / WORD_BITS == p / WORD_BITS {
      WithBitBit(ws[p / WORD_BITS], p % WORD_BITS, v, i % WORD_BITS);
    }
  }

  /** The buffer-level effect of the write in `setBit`: the bit sequence is
      updated at `p`, and a clean tail stays clean. */
  lemma WriteBit(ws: seq<Word>, n: nat, p: nat, v: bool)
    requires p < n <= WORD_BITS * |ws|
    ensures BitsOf(ws[p / WORD_BITS := WithBit(ws[p / WORD_BITS], p % WORD_BITS, v)], n)
            == BitsOf(ws, n)[p := v]
    ensures TailClean(ws, n) ==>
            TailClean(ws[p / WORD_BITS := WithBit(ws[p / WORD_BITS], p % WORD_BITS, v)], n)
  {
    var ws' := ws[p / WORD_BITS := WithBit(ws[p / WORD_BITS], p % WORD_BITS, v)];
    forall i | 0 <= i < WORD_BITS * |ws|
      ensures BitAt(ws', i) == if i == p then v else BitAt(ws, i)
    {
      WithBitAt(ws, p, v, i);
    }
    assert BitsOf(ws', n) == BitsOf(ws, n)[p := v];
  }

  /** A buffer of word-wise xors holds the bit-wise xor. */
  lemma XorWords(a: seq<Word>, b: seq<Word>, x: seq<Word>, n: nat)
    requires |a| == |b| == |x| && n <= WORD_BITS * |x|
    requires forall k :: 0 <= k < |x| ==> x[k] == WordXor(a[k], b[k])
    ensures BitsOf(x, n) == XorBits(BitsOf(a, n), BitsOf(b, n))
    ensures TailClean(a, n) && TailClean(b, n) ==> TailClean(x, n)
  {
    forall i | 0 <= i < WORD_BITS * |x|
      ensures BitAt(x, i) == (BitAt(a, i) != BitAt(b, i))
    {
      XorBit(a[i / WORD_BITS], b[i / WORD_BITS], i % WORD_BITS);
    }
  }

  /** Anding the last word with `TailMask(n % 64)` keeps bit `i` when it is
      below `n` and clears it otherwise. */
  lemma MaskTailAt(ws: seq<Word>, n: nat, i: nat)
    requires 0 < |ws| && WORD_BITS * (|ws| - 1) < n <= WORD_BITS * |ws|
    requires n % WORD_BITS != 0 && i < WORD_BITS * |ws|
    ensures BitAt(ws[|ws| - 1 := WordAnd(ws[|ws| - 1], TailMask(n % WORD_BITS))], i)
            == (i < n && BitAt(ws, i))
  {
    var last := |ws| - 1;
    if i / WORD_BITS == last {
      AndBit(ws[last], TailMask(n % WORD_BITS), i % WORD_BITS);
    }
  }

  /** The effect of `maskUnusedBits`: anding the last word with
      `TailMask(n % 64)` keeps the first `n` bits and clears the rest. */
  lemma MaskTail(ws: seq<Word>, n: nat)
    requires 0 < |ws| && WORD_BITS * (|ws| - 1) < n <= WORD_BITS * |ws|
    requires n % WORD_BITS != 0
    ensures BitsOf(ws[|ws| - 1 := WordAnd(ws[|ws| - 1], TailMask(n % WORD_BITS))], n) == BitsOf(ws, n)
    ensures TailClean(ws[|ws| - 1 := WordAnd(ws[|ws| - 1], TailMask(n % WORD_BITS))], n)
  {
    var ws' := ws[|ws| - 1 := WordAnd(ws[|ws| - 1], TailMask(n % WORD_BITS))];
    forall i | 0 <= i < WORD_BITS * |ws|
      ensures BitAt(ws', i) == (i < n && BitAt(ws, i))
    {
      MaskTailAt(ws, n, i);
    }
  }

  /** Under the tail invariant, equal bits mean equal words. */
  lemma SameBitsSameWords(a: seq<Word>, b: seq<Word>, n: nat)
    requires |a| == |b| && n <= WORD_BITS * |a|
    requires TailClean(a, n) && TailClean(b, n)
    requires BitsOf(a, n) == BitsOf(b, n)
    ensures a == b
  {
    forall k | 0 <= k < |a|
      ensures a[k] == b[k]
    {
      forall c | 0 <= c < WORD_BITS
        ensures Bit(a[k], c) == Bit(b[k], c)
      {
        var i := WORD_BITS * k + c;
        assert i / WORD_BITS == k && i % WORD_BITS == c;
        assert BitAt(a, i) == BitAt(b, i) by {
          if i < n {
            assert BitsOf(a, n)[i] == BitsOf(b, n)[i];
          }
        }
      }
      WordExtensional(a[k], b[k]);
    }
  }

  /** Word-wise comparison is bit-wise comparison, under the tail invariant. */
  lemma WordsEqualIffBitsEqual(a: seq<Word>, b: seq<Word>, n: nat)
    requires |a| == |b| && n <= WORD_BITS * |a|
    requires TailClean(a, n) && TailClean(b, n)
    ensures a == b <==> BitsOf(a, n) == BitsOf(b, n)
  {
    if BitsOf(a, n) == BitsOf(b, n) {
      SameBitsSameWords(a, b, n);
    }
  }

  /** Under the tail invariant, the words are all zero exactly when the bits are. */
  lemma ZeroWordsIffZeroBits(ws: seq<Word>, n: nat)
    requires n <= WORD_BITS * |ws| && TailClean(ws, n)
    ensures (forall k :: 0 <= k < |ws| ==> ws[k] == 0) <==> BitsOf(ws, n) == Zeros(n)
  {
    var zs := seq(|ws|, (_: int) => 0 as Word);
    ZeroWords(zs, n);
    WordsEqualIffBitsEqual(ws, zs, n);
    if ws == zs {
      assert forall k :: 0 <= k < |ws| ==> ws[k] == 0;
    }
  }
}
