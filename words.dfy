/** `word_t`, the `std::uint64_t` a codeword is packed into, as the integer it
    denotes, with the bitwise operators the class applies to it defined one
    bit at a time, as the C++ standard defines them on unsigned integers. */
module Words {

  /** `WORD_BITS` is `8 * sizeof(word_t)`. */
  const WORD_BITS: int := 64

  function Pow2(n: nat): (p: nat)
    ensures p >= 1
  {
    if n == 0 then 1 else 2 * Pow2(n - 1)
  }

  /** One more than the largest `word_t`. */
  const WORD_LIMIT: nat := Pow2(WORD_BITS)

  /** A value of `word_t`. */
  type Word = w: int | 0 <= w < WORD_LIMIT

  lemma {:induction false} Pow2Less(a: nat, b: nat)
    requires a < b
    ensures Pow2(a) < Pow2(b)
    decreases b
  {
    if a < b - 1 {
      Pow2Less(a, b - 1);
    }
  }

  /** Every shift below the width gives a word. */
  lemma Pow2Word(n: nat)
    requires n < WORD_BITS
    ensures Pow2(n) < WORD_LIMIT
  {
    Pow2Less(n, WORD_BITS);
  }

  /** Bit `c` of `w`. */
  predicate Bit(w: nat, c: nat) {
    if c == 0 then w % 2 == 1 else Bit(w / 2, c - 1)
  }

  /** `x ^ y`: zero exactly when the operands are equal. */
  function Xor(x: nat, y: nat): (r: nat)
    ensures r == 0 <==> x == y
    decreases x + y
  {
    if x == 0 && y == 0 then 0 else 2 * Xor(x / 2, y / 2) + (if x % 2 != y % 2 then 1 else 0)
  }

  /** `x & y`: no larger than either operand. */
  function And(x: nat, y: nat): (r: nat)
    ensures r <= x && r <= y
    decreases x + y
  {
    if x == 0 && y == 0 then 0 else 2 * And(x / 2, y / 2) + (if x % 2 == 1 && y % 2 == 1 then 1 else 0)
  }

  /** `x | y`: at least either operand, at most their sum. */
  function Or(x: nat, y: nat): (r: nat)
    ensures x <= r && y <= r && r <= x + y
    decreases x + y
  {
    if x == 0 && y == 0 then 0 else 2 * Or(x / 2, y / 2) + (if x % 2 == 1 || y % 2 == 1 then 1 else 0)
  }

  /** `~x` on `word_t`: each of the 64 bits flipped. */
  function Not(x: Word): (r: Word)
    ensures forall c :: 0 <= c < WORD_BITS ==> Bit(r, c) == !Bit(x, c)
  {
    ComplementBits(x, WORD_BITS);
    WORD_LIMIT - 1 - x
  }

  /** `word_t{1} << b` for an in-range shift `b`: bit `b` and no other. */
  function BitMask(b: nat): (m: Word)
    requires b < WORD_BITS
    ensures forall c: nat :: Bit(m, c) == (c == b)
  {
    Pow2Word(b);
    Pow2Bits(b);
    Pow2(b)
  }

  /** `(word_t{1} << used) - 1`: exactly the `used` low bits. */
  function LowMask(used: nat): (m: Word)
    requires used < WORD_BITS
    ensures forall c: nat :: Bit(m, c) == (c < used)
  {
    Pow2Word(used);
    LowOnesBits(used, Pow2(used) - 1);
    Pow2(used) - 1
  }

  // ---------------------------------------------------------------------------
  // The operators stay within `word_t`

  lemma {:induction false} XorBelow(x: nat, y: nat, n: nat)
    requires x < Pow2(n) && y < Pow2(n)
    ensures Xor(x, y) < Pow2(n)
    decreases n
  {
    if n > 0 && !(x == 0 && y == 0) {
      XorBelow(x / 2, y / 2, n - 1);
    }
  }

  lemma {:induction false} AndBelow(x: nat, y: nat, n: nat)
    requires x < Pow2(n) && y < Pow2(n)
    ensures And(x, y) < Pow2(n)
    decreases n
  {
    if n > 0 && !(x == 0 && y == 0) {
      AndBelow(x / 2, y / 2, n - 1);
    }
  }

  lemma {:induction false} OrBelow(x: nat, y: nat, n: nat)
    requires x < Pow2(n) && y < Pow2(n)
    ensures Or(x, y) < Pow2(n)
    decreases n
  {
    if n > 0 && !(x == 0 && y == 0) {
      OrBelow(x / 2, y / 2, n - 1);
    }
  }

  /** `^`, `&` and `|` of two words are words. */
  lemma WordOps(x: Word, y: Word)
    ensures Xor(x, y) < WORD_LIMIT && And(x, y) < WORD_LIMIT && Or(x, y) < WORD_LIMIT
  {
    XorBelow(x, y, WORD_BITS);
    AndBelow(x, y, WORD_BITS);
    OrBelow(x, y, WORD_BITS);
  }

  /** `x ^ y` on `word_t`. */
  function WordXor(x: Word, y: Word): Word {
    WordOps(x, y);
    Xor(x, y)
  }

  /** `x & y` on `word_t`. */
  function WordAnd(x: Word, y: Word): Word {
    WordOps(x, y);
    And(x, y)
  }

  /** `x | y` on `word_t`. */
  function WordOr(x: Word, y: Word): Word {
    WordOps(x, y);
    Or(x, y)
  }

  // ---------------------------------------------------------------------------
  // The operators bit by bit

  /** Halving drops the low bit. */
  lemma Halve(q: nat, b: nat)
    requires b < 2
    ensures (2 * q + b) / 2 == q && (2 * q + b) % 2 == b
  {
  }

  lemma {:induction false} ZeroBit(c: nat)
    ensures !Bit(0, c)
    decreases c
  {
    if c > 0 {
      ZeroBit(c - 1);
    }
  }

  lemma {:induction false} XorBit(x: nat, y: nat, c: nat)
    ensures Bit(Xor(x, y), c) == (Bit(x, c) != Bit(y, c))
    decreases c
  {
    if !(x == 0 && y == 0) {
      Halve(Xor(x / 2, y / 2), if x % 2 != y % 2 then 1 else 0);
    }
    if c > 0 {
      XorBit(x / 2, y / 2, c - 1);
    }
  }

  lemma {:induction false} AndBit(x: nat, y: nat, c: nat)
    ensures Bit(And(x, y), c) == (Bit(x, c) && Bit(y, c))
    decreases c
  {
    if !(x == 0 && y == 0) {
      Halve(And(x / 2, y / 2), if x % 2 == 1 && y % 2 == 1 then 1 else 0);
    }
    if c > 0 {
      AndBit(x / 2, y / 2, c - 1);
    }
  }

  lemma {:induction false} OrBit(x: nat, y: nat, c: nat)
    ensures Bit(Or(x, y), c) == (Bit(x, c) || Bit(y, c))
    decreases c
  {
    if !(x == 0 && y == 0) {
      Halve(Or(x / 2, y / 2), if x % 2 == 1 || y % 2 == 1 then 1 else 0);
    }
    if c > 0 {
      OrBit(x / 2, y / 2, c - 1);
    }
  }

  /** Complementing within `n` bits flips each of them. */
  lemma {:induction false} ComplementBit(x: nat, n: nat, c: nat)
    requires x < Pow2(n) && c < n
    ensures Bit(Pow2(n) - 1 - x, c) == !Bit(x, c)
    decreases c
  {
    if c > 0 {
      assert (Pow2(n) - 1 - x) / 2 == Pow2(n - 1) - 1 - x / 2;
      ComplementBit(x / 2, n - 1, c - 1);
    }
  }

  lemma ComplementBits(x: nat, n: nat)
    requires x < Pow2(n)
    ensures forall c :: 0 <= c < n ==> Bit(Pow2(n) - 1 - x, c) == !Bit(x, c)
  {
    forall c | 0 <= c < n {
      ComplementBit(x, n, c);
    }
  }

  lemma {:induction false} Pow2Bit(b: nat, c: nat)
    ensures Bit(Pow2(b), c) == (b == c)
    decreases b
  {
    if b == 0 {
      if c > 0 {
        ZeroBit(c - 1);
      }
    } else if c > 0 {
      Pow2Bit(b - 1, c - 1);
    }
  }

  lemma {:induction false} LowOnesBit(r: nat, c: nat)
    ensures Bit(Pow2(r) - 1, c) == (c < r)
    decreases r
  {
    if r == 0 {
      ZeroBit(c);
    } else if c > 0 {
      assert (Pow2(r) - 1) / 2 == Pow2(r - 1) - 1;
      LowOnesBit(r - 1, c - 1);
    }
  }

  lemma Pow2Bits(b: nat)
    ensures forall c: nat :: Bit(Pow2(b), c) == (c == b)
  {
    forall c: nat {
      Pow2Bit(b, c);
    }
  }

  lemma LowOnesBits(r: nat, m: nat)
    requires m == Pow2(r) - 1
    ensures forall c: nat :: Bit(m, c) == (c < r)
  {
    forall c: nat
      ensures Bit(m, c) == (c < r)
    {
      LowOnesBit(r, c);
    }
  }

  /** `~word_t{0}` has all 64 bits and no other. */
  lemma AllOnesBit(m: nat)
    requires m == WORD_LIMIT - 1
    ensures forall c: nat :: Bit(m, c) == (c < WORD_BITS)
  {
    LowOnesBits(WORD_BITS, m);
  }

  // ---------------------------------------------------------------------------
  // A word is its bits

  /** Two values below `2^n` with the same low `n` bits are equal. */
  lemma {:induction false} SameBitsEqual(x: nat, y: nat, n: nat)
    requires x < Pow2(n) && y < Pow2(n)
    requires forall c :: 0 <= c < n ==> Bit(x, c) == Bit(y, c)
    ensures x == y
    decreases n
  {
    if n > 0 {
      assert Bit(x, 0) == Bit(y, 0);
      forall c | 0 <= c < n - 1
        ensures Bit(x / 2, c) == Bit(y / 2, c)
      {
        assert Bit(x, c + 1) == Bit(y, c + 1);
      }
      SameBitsEqual(x / 2, y / 2, n - 1);
    }
  }

  /** A word is determined by its 64 bits. */
  lemma WordExtensional(x: Word, y: Word)
    requires forall c :: 0 <= c < WORD_BITS ==> Bit(x, c) == Bit(y, c)
    ensures x == y
  {
    SameBitsEqual(x, y, WORD_BITS);
  }

  /** `w & (word_t{1} << b)` is nonzero exactly when bit `b` of `w` is set:
      the test `getBit` makes. */
  lemma MaskTest(w: Word, b: nat)
    requires b < WORD_BITS
    ensures WordAnd(w, BitMask(b)) != 0 <==> Bit(w, b)
  {
    AndBit(w, BitMask(b), b);
    if !Bit(w, b) {
      WordOps(w, BitMask(b));
      forall c | 0 <= c < WORD_BITS
        ensures Bit(And(w, BitMask(b)), c) == Bit(0, c)
      {
        AndBit(w, BitMask(b), c);
        ZeroBit(c);
      }
      WordExtensional(And(w, BitMask(b)), 0);
    } else {
      ZeroBit(b);
    }
  }
}
