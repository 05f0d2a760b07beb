/** The class `BinaryCodeWord`: a fixed-length bit vector packed into an owned
    buffer of 64-bit words, with per-bit access, XOR, equality and printing. */
module Codeword {
  import opened Errors
  import opened BitSeq
  import opened Words
  import opened Layout

  class BinaryCodeWord {
    /** `m_length`, the number of bits. */
    var length: int
    /** `m_numWords`, the number of words in the buffer. */
    var numWords: int
    /** `m_words`; `null` when the codeword owns no buffer. */
    var words: array?<Word>
    /** The bits the codeword holds, bit 0 first. */
    ghost var bits: seq<bool>

    /** `initialized()`: the codeword owns a buffer, which a valid codeword
        does exactly when its length is positive. */
    predicate Initialized()
      reads this, words
      ensures Valid() ==> (Initialized() <==> 0 < length)
    {
      words != null
    }

    /** The codeword owns a buffer of the size its length calls for. */
    ghost predicate Shaped()
      reads this
    {
      words != null && 0 < length <= INT32_MAX && numWords == NumWords(length)
      && words.Length == numWords
    }

    /** Either the state of the field defaults and of a moved-from codeword
        (no buffer, length 0, no words, no bits), or a buffer sized for
        `length` whose bits at and beyond `length` are all clear and whose
        first `length` bits are `bits`. */
    ghost predicate Valid()
      reads this, words
    {
      if words == null then length == 0 && numWords == 0 && bits == []
      else Shaped() && TailClean(words[..], length) && bits == BitsOf(words[..], length)
    }

    /** `length()`: the number of bits held; 0 without a buffer. */
    function Length(): (n: int)
      reads this, words
      requires Valid()
      ensures n == |bits|
      ensures !Initialized() ==> n == 0
    {
      length
    }

    /** A codeword with the header's field defaults: no buffer, length 0. */
    constructor Empty()
      ensures Valid() && !Initialized()
      ensures length == 0 && numWords == 0
    {
      length := 0;
      numWords := 0;
      words := null;
      bits := [];
    }

    /** `BinaryCodeWord(int length)`: the field defaults, then `reset(length)`. */
    static method New(n: int32) returns (r: Result<BinaryCodeWord>)
      ensures r.Err? <==> n <= 0
      ensures r.Err? ==> r.error == InvalidLength
      ensures r.Ok? ==> fresh(r.value) && fresh(r.value.words) && r.value.Valid()
                        && r.value.Initialized() && r.value.length == n as int
                        && r.value.bits == Zeros(n as int)
    {
      var w := new BinaryCodeWord.Empty();
      var o := w.Reset(n);
      if o.Fail? {
        return Err(o.error);
      }
      return Ok(w);
    }

    /** `reset(length)`: a non-positive length is refused; otherwise the
        codeword gets a new zero-filled buffer of `ceil(length / 64)` words. */
    method Reset(newLength: int32) returns (o: Outcome)
      requires Valid()
      modifies this
      ensures Valid()
      ensures o.Fail? <==> newLength <= 0
      ensures o.Fail? ==> o.error == InvalidLength && unchanged(this)
      ensures o.Pass? ==> length == newLength as int && numWords == NumWords(length)
                          && Initialized() && fresh(words) && bits == Zeros(length)
    {
      if newLength <= 0 {
        return Fail(InvalidLength);
      }
      var n := newLength as int;
      var count := NumWords(n);
      var buffer := new Word[count];
      for k := 0 to count
        invariant forall j :: 0 <= j < k ==> buffer[j] == 0
      {
        buffer[k] := 0;
      }
      length := n;
      numWords := count;
      words := buffer;
      bits := Zeros(length);
      ZeroWords(words[..], length);
      return Pass;
    }

    /** `std::copy` of a whole buffer into a new one. */
    static method CopyBuffer(src: array<Word>) returns (dst: array<Word>)
      ensures fresh(dst) && dst[..] == src[..]
    {
      dst := new Word[src.Length];
      for k := 0 to src.Length
        invariant forall j :: 0 <= j < k ==> dst[j] == src[j]
      {
        dst[k] := src[k];
      }
    }

    /** The copy constructor: the same length and bits in a buffer of its own
        (no buffer when `other` has none). */
    constructor Copy(other: BinaryCodeWord)
      requires other.Valid()
      ensures Valid()
      ensures length == other.length && numWords == other.numWords
      ensures Initialized() == other.Initialized()
      ensures words != null ==> fresh(words)
      ensures bits == other.bits
    {
      var buffer: array?<Word> := null;
      if other.words != null {
        buffer := CopyBuffer(other.words);
      }
      length := other.length;
      numWords := other.numWords;
      words := buffer;
      bits := other.bits;
    }

    /** Copy assignment: a no-op on itself, otherwise the copy constructor's
        effect on an existing codeword; `other` is left as it was. */
    method CopyFrom(other: BinaryCodeWord)
      requires Valid() && other.Valid()
      modifies this
      ensures Valid() && other.Valid()
      ensures other == this ==> unchanged(this)
      ensures length == old(other.length) && numWords == old(other.numWords)
      ensures Initialized() == old(other.Initialized())
      ensures other != this && words != null ==> fresh(words)
      ensures bits == old(other.bits) && other.bits == old(other.bits)
    {
      if other == this {
        return;
      }
      length := other.length;
      numWords := other.numWords;
      if other.words != null {
        words := CopyBuffer(other.words);
      } else {
        words := null;
      }
      bits := other.bits;
    }

    /** The move constructor: takes `other`'s buffer, length and word count,
        and leaves `other` with no buffer, length 0 and no words. */
    constructor Move(other: BinaryCodeWord)
      requires other.Valid()
      modifies other
      ensures Valid() && other.Valid()
      ensures length == old(other.length) && numWords == old(other.numWords)
      ensures words == old(other.words) && bits == old(other.bits)
      ensures other.length == 0 && other.numWords == 0 && !other.Initialized()
    {
      length := other.length;
      numWords := other.numWords;
      words := other.words;
      bits := other.bits;
      new;
      other.length := 0;
      other.numWords := 0;
      other.words := null;
      other.bits := [];
    }

    /** Move assignment: a no-op on itself, otherwise the move constructor's
        effect on an existing codeword. */
    method MoveFrom(other: BinaryCodeWord)
      requires Valid() && other.Valid()
      modifies this, other
      ensures Valid() && other.Valid()
      ensures other == this ==> unchanged(this)
      ensures other != this ==> length == old(other.length) && numWords == old(other.numWords)
                                && words == old(other.words)
                                && other.length == 0 && other.numWords == 0 && !other.Initialized()
      ensures bits == old(other.bits)
    {
      if other == this {
        return;
      }
      length := other.length;
      numWords := other.numWords;
      words := other.words;
      bits := other.bits;
      other.length := 0;
      other.numWords := 0;
      other.words := null;
      other.bits := [];
    }

    /** `maskUnusedBits`: clears the bits of the last word at and beyond
        `length`, and changes nothing else. */
    method MaskUnusedBits()
      requires Shaped()
      modifies words
      ensures TailClean(words[..], length)
      ensures BitsOf(words[..], length) == old(BitsOf(words[..], length))
      ensures words[..numWords - 1] == old(words[..numWords - 1])
      ensures length % WORD_BITS == 0 ==> words[..] == old(words[..])
    {
      var used := length % WORD_BITS;
      if used == 0 || numWords == 0 {
        return;
      }
      var mask := TailMask(used);
      words[numWords - 1] := WordAnd(words[numWords - 1], mask);
      MaskTail(old(words[..]), length);
    }

    /** `value & 1 == 1` for a two's-complement `int`: bit 0 of the 32-bit
        pattern of `value` is set. */
    static predicate Odd(value: int32)
      ensures Odd(value) == Bit(if value < 0 then value as int + 0x1_0000_0000 else value as int, 0)
    {
      value as int % 2 == 1
    }

    /** `setBit(position, value)`: bit `position` becomes the low bit of
        `value` (`value & 1`, which for a two's-complement `int` is its
        remainder modulo 2), and no other bit changes. */
    method SetBit(position: int32, value: int32) returns (o: Outcome)
      requires Valid()
      modifies this`bits, words
      ensures Valid()
      ensures o == if !Initialized() then Fail(Uninitialized)
                   else if position < 0 || position as int >= length then Fail(PositionOutOfRange)
                   else Pass
      ensures o.Fail? ==> unchanged(this) && (words != null ==> unchanged(words))
      ensures o.Pass? ==> bits == old(bits)[position as int := Odd(value)]
    {
      if words == null {
        return Fail(Uninitialized);
      }
      if position < 0 || position as int >= length {
        return Fail(PositionOutOfRange);
      }
      var p := position as int;
      var w := p / WORD_BITS;
      var b := p % WORD_BITS;
      var mask := BitMask(b);
      if Odd(value) {
        words[w] := WordOr(words[w], mask);
      } else {
        words[w] := WordAnd(words[w], Not(mask));
      }
      WriteBit(old(words[..]), length, p, Odd(value));
      MaskUnusedBits();
      bits := bits[p := Odd(value)];
      return Pass;
    }

    /** `getBit(position)`: 1 when bit `position` is set, 0 when it is clear. */
    method GetBit(position: int32) returns (r: Result<int>)
      requires Valid()
      ensures r == if !Initialized() then Err(Uninitialized)
                   else if position < 0 || position as int >= length then Err(PositionOutOfRange)
                   else Ok(if bits[position] then 1 else 0)
    {
      if words == null {
        return Err(Uninitialized);
      }
      if position < 0 || position as int >= length {
        return Err(PositionOutOfRange);
      }
      var p := position as int;
      var w := p / WORD_BITS;
      var b := p % WORD_BITS;
      MaskTest(words[w], b);
      return Ok(if WordAnd(words[w], BitMask(b)) != 0 then 1 else 0);
    }

    /** `isZero()`: whether every word, and so every bit, is zero. */
    method IsZero() returns (r: Result<bool>)
      requires Valid()
      ensures r == if !Initialized() then Err(Uninitialized) else Ok(bits == Zeros(length))
    {
      if words == null {
        return Err(Uninitialized);
      }
      ZeroWordsIffZeroBits(words[..], length);
      var i := 0;
      while i < numWords
        invariant 0 <= i <= numWords
        invariant forall k :: 0 <= k < i ==> words[k] == 0
      {
        if words[i] != 0 {
          return Ok(false);
        }
        i := i + 1;
      }
      return Ok(true);
    }

    /** `operator+`: a new codeword holding the bitwise XOR of two codewords
        of the same length; neither operand changes. */
    static method Plus(a: BinaryCodeWord, b: BinaryCodeWord) returns (r: Result<BinaryCodeWord>)
      requires a.Valid() && b.Valid()
      ensures r.Err? ==> r.error == if !a.Initialized() || !b.Initialized() then Uninitialized
                                    else LengthMismatch
      ensures r.Ok? <==> a.Initialized() && b.Initialized() && a.length == b.length
      ensures r.Ok? ==> fresh(r.value) && fresh(r.value.words) && r.value.Valid()
                        && r.value.length == a.length
                        && r.value.bits == XorBits(a.bits, b.bits)
    {
      if a.words == null || b.words == null {
        return Err(Uninitialized);
      }
      if a.length != b.length {
        return Err(LengthMismatch);
      }
      var made := New(a.length as int32);
      var out := made.value;
      XorLoop(a.words, b.words, out.words);
      XorWords(a.words[..], b.words[..], out.words[..], a.length);
      out.MaskUnusedBits();
      out.bits := XorBits(a.bits, b.bits);
      return Ok(out);
    }

    /** The loop of `operator+`: word `k` of `out` becomes `x[k] ^ y[k]`. */
    static method XorLoop(x: array<Word>, y: array<Word>, out: array<Word>)
      requires x.Length == y.Length == out.Length
      requires out != x && out != y
      modifies out
      ensures forall k :: 0 <= k < out.Length ==> out[k] == WordXor(x[k], y[k])
    {
      for i := 0 to out.Length
        invariant forall k :: 0 <= k < i ==> out[k] == WordXor(x[k], y[k])
      {
        out[i] := WordXor(x[i], y[i]);
      }
    }

    /** `operator+=`: XORs `rhs` into this codeword, `rhs` itself included. */
    method XorAssign(rhs: BinaryCodeWord) returns (o: Outcome)
      requires Valid() && rhs.Valid()
      modifies this`bits, words
      ensures Valid()
      ensures o == if !Initialized() || !rhs.Initialized() then Fail(Uninitialized)
                   else if length != rhs.length then Fail(LengthMismatch)
                   else Pass
      ensures o.Fail? ==> unchanged(this) && (words != null ==> unchanged(words))
      ensures o.Pass? ==> bits == XorBits(old(bits), old(rhs.bits))
      ensures rhs.words != null && rhs.words != words ==> unchanged(rhs.words)
    {
      if words == null || rhs.words == null {
        return Fail(Uninitialized);
      }
      if length != rhs.length {
        return Fail(LengthMismatch);
      }
      ghost var before := words[..];
      ghost var other := rhs.words[..];
      var i := 0;
      while i < numWords
        invariant 0 <= i <= numWords
        invariant forall k :: 0 <= k < i ==> words[k] == WordXor(before[k], other[k])
        invariant forall k :: i <= k < numWords ==> words[k] == before[k] && rhs.words[k] == other[k]
        invariant rhs.words != words ==> rhs.words[..] == other
      {
        words[i] := WordXor(words[i], rhs.words[i]);
        i := i + 1;
      }
      XorWords(before, other, words[..], length);
      MaskUnusedBits();
      bits := BitsOf(words[..], length);
      return Pass;
    }

    /** `operator==`: codewords of different lengths are unequal; otherwise
        they are equal exactly when all their words, and so all their bits,
        agree. */
    method Equals(rhs: BinaryCodeWord) returns (r: Result<bool>)
      requires Valid() && rhs.Valid()
      ensures r == if !Initialized() || !rhs.Initialized() then Err(Uninitialized)
                   else Ok(bits == rhs.bits)
    {
      if words == null || rhs.words == null {
        return Err(Uninitialized);
      }
      if length != rhs.length {
        return Ok(false);
      }
      WordsEqualIffBitsEqual(words[..], rhs.words[..], length);
      var i := 0;
      while i < numWords
        invariant 0 <= i <= numWords
        invariant forall k :: 0 <= k < i ==> words[k] == rhs.words[k]
      {
        if words[i] != rhs.words[i] {
          return Ok(false);
        }
        i := i + 1;
      }
      return Ok(true);
    }

    /** `operator!=`: the negation of `operator==`. */
    method NotEquals(rhs: BinaryCodeWord) returns (r: Result<bool>)
      requires Valid() && rhs.Valid()
      ensures r == if !Initialized() || !rhs.Initialized() then Err(Uninitialized)
                   else Ok(bits != rhs.bits)
    {
      var eq := Equals(rhs);
      if eq.Err? {
        return eq;
      }
      return Ok(!eq.value);
    }

    /** The text `operator<<` writes: `(`, then `getBit(i)` for every `i`
        from 0 up, then `)`. */
    method Render() returns (r: Result<string>)
      requires Valid()
      ensures r == if !Initialized() then Err(Uninitialized) else Ok(Rendered(bits))
    {
      if words == null {
        return Err(Uninitialized);
      }
      var text := "(";
      var i := 0;
      while i < length
        invariant 0 <= i <= length
        invariant text == "(" + Digits(bits[..i])
      {
        var bit := GetBit(i as int32);
        assert bits[..i + 1][..i] == bits[..i];
        text := text + [if bit.value == 1 then '1' else '0'];
        i := i + 1;
      }
      assert bits[..length] == bits;
      return Ok(text + ")");
    }
  }
}
