/** The behaviours the repository's unit tests and usage example exercise,
    each as a method whose postcondition is the outcome they expect. */
module Scenarios {
  import opened Errors
  import opened BitSeq
  import opened Codeword

  /** What `getBit` reads at every position, in order. */
  function Levels(bits: seq<bool>): (observed: seq<int>)
    ensures |observed| == |bits|
  {
    seq(|bits|, i requires 0 <= i < |bits| => if bits[i] then 1 else 0)
  }

  /** A fixture: a new codeword of `|target|` bits, then `setBit(i, 1)` at
      every position `i` that `target` sets; the other bits keep the value
      construction gave them. */
  method Make(target: seq<bool>) returns (w: BinaryCodeWord)
    requires 0 < |target| <= 64
    ensures fresh(w) && fresh(w.words) && w.Valid() && w.Initialized()
    ensures w.bits == target
  {
    var made := BinaryCodeWord.New(|target| as Layout.int32);
    w := made.value;
    for k := 0 to |target|
      invariant fresh(w) && fresh(w.words) && w.Valid() && w.Initialized()
      invariant |w.bits| == |target|
      invariant forall j :: 0 <= j < k ==> w.bits[j] == target[j]
      invariant forall j :: k <= j < |target| ==> !w.bits[j]
    {
      if target[k] {
        var o := w.SetBit(k as Layout.int32, 1);
      }
    }
  }

  /** A fixture: `getBit(i)` for every `i` from 0 below `length()`. */
  method Observe(w: BinaryCodeWord) returns (observed: seq<int>)
    requires w.Valid() && w.Initialized()
    ensures observed == Levels(w.bits)
  {
    observed := [];
    var i := 0;
    while i < w.Length()
      invariant 0 <= i <= w.length && |observed| == i
      invariant forall k :: 0 <= k < i ==> observed[k] == if w.bits[k] then 1 else 0
    {
      var bit := w.GetBit(i as Layout.int32);
      observed := observed + [bit.value];
      i := i + 1;
    }
  }

  /** A newly constructed codeword of 5 bits reads 0 at every position. */
  method InitializesToZero() returns (observed: seq<int>)
    ensures observed == [0, 0, 0, 0, 0]
  {
    var made := BinaryCodeWord.New(5);
    observed := Observe(made.value);
  }

  /** An odd value stores 1 (7 as well as 1) and an even value stores 0. */
  method SetAndGetBit() returns (afterOne: int, afterSeven: int, afterZero: int)
    ensures afterOne == 1 && afterSeven == 1 && afterZero == 0
  {
    var w := Make([false, false, false, false]);
    var o := w.SetBit(2, 1);
    var bit := w.GetBit(2);
    afterOne := bit.value;
    o := w.SetBit(2, 7);
    bit := w.GetBit(2);
    afterSeven := bit.value;
    o := w.SetBit(2, 0);
    bit := w.GetBit(2);
    afterZero := bit.value;
  }

  /** Bits {0, 2} plus bits {2, 3} is bits {0, 3}. */
  method PlusIsXor() returns (observed: seq<int>)
    ensures observed == [1, 0, 0, 1]
  {
    var a := Make([true, false, true, false]);
    var b := Make([false, false, true, true]);
    var sum := BinaryCodeWord.Plus(a, b);
    observed := Observe(sum.value);
  }

  /** `+=` cancels a bit both sides hold and sets one only the right side holds. */
  method PlusEqualsChains() returns (afterFirst: seq<int>, afterSecond: seq<int>)
    ensures afterFirst == [0, 0, 0, 0] && afterSecond == [0, 0, 1, 0]
  {
    var a := Make([false, true, false, false]);
    var b := Make([false, true, false, false]);
    var c := Make([false, false, true, false]);
    var o := a.XorAssign(b);
    afterFirst := Observe(a);
    o := a.XorAssign(c);
    afterSecond := Observe(a);
  }

  /** Two fresh codewords are equal, differ once one bit is set in one of
      them, and are equal again once it is set in the other. */
  method Equality() returns (first: bool, differ: bool, again: bool)
    ensures first && differ && again
  {
    var madeA := BinaryCodeWord.New(3);
    var madeB := BinaryCodeWord.New(3);
    var a := madeA.value;
    var b := madeB.value;
    var eq := a.Equals(b);
    first := eq.value;
    var o := a.SetBit(0, 1);
    assert a.bits[0] != b.bits[0];
    var ne := a.NotEquals(b);
    differ := ne.value;
    o := b.SetBit(0, 1);
    eq := a.Equals(b);
    again := eq.value;
  }

  /** Adding codewords of 3 and 4 bits fails either way it is written. */
  method LengthsMustMatch() returns (plus: Result<BinaryCodeWord>, plusAssign: Outcome)
    ensures plus == Err(LengthMismatch) && plusAssign == Fail(LengthMismatch)
  {
    var a := Make([false, false, false]);
    var b := Make([false, false, false, false]);
    plus := BinaryCodeWord.Plus(a, b);
    plusAssign := a.XorAssign(b);
  }

  /** The usage example: with a = {0, 3} and b = {3, 4} on 8 bits, `a + b`
      reads 1, 0, 0, 0, 1, 0, 0, 0 and equals `a` after `a += b`. */
  method BasicUsage() returns (observed: seq<int>, same: bool)
    ensures observed == [1, 0, 0, 0, 1, 0, 0, 0] && same
  {
    var a := Make([true, false, false, true, false, false, false, false]);
    var b := Make([false, false, false, true, true, false, false, false]);
    var sum := BinaryCodeWord.Plus(a, b);
    var c := sum.value;
    var o := a.XorAssign(b);
    var eq := a.Equals(c);
    same := eq.value;
    observed := Observe(c);
  }

  /** A codeword with bits 0 and 2 of 3 set prints as (101). */
  method Printing() returns (text: string)
    ensures text == "(101)"
  {
    var w := Make([true, false, true]);
    var shown := w.Render();
    text := shown.value;
    assert Digits([true, false, true]) == "101";
  }

  /** A length of 0 or less is refused. */
  method InvalidLengths() returns (zero: Result<BinaryCodeWord>, negative: Result<BinaryCodeWord>)
    ensures zero == Err(InvalidLength) && negative == Err(InvalidLength)
  {
    zero := BinaryCodeWord.New(0);
    negative := BinaryCodeWord.New(-5);
  }

  /** Positions below 0 or at the length are refused, and so is any access
      to a codeword that has been moved from. */
  method BadAccess() returns (low: Outcome, high: Result<int>, moved: Result<int>, movedLength: int)
    ensures low == Fail(PositionOutOfRange) && high == Err(PositionOutOfRange)
    ensures moved == Err(Uninitialized) && movedLength == 0
  {
    var w := Make([false, false, false]);
    low := w.SetBit(-1, 1);
    high := w.GetBit(3);
    var taker := new BinaryCodeWord.Move(w);
    moved := w.GetBit(0);
    movedLength := w.Length();
  }

  /** A copy has its own buffer: setting a bit in the copy leaves the
      original as it was. */
  method CopyIsIndependent() returns (original: seq<int>, copied: seq<int>)
    ensures original == [1, 0, 0] && copied == [1, 1, 0]
  {
    var a := Make([true, false, false]);
    var b := new BinaryCodeWord.Copy(a);
    var o := b.SetBit(1, 1);
    original := Observe(a);
    copied := Observe(b);
  }

  /** Copy assignment replaces a codeword of another length by an
      independent copy: setting a bit in it leaves the original as it was. */
  method CopyAssignIsIndependent() returns (original: seq<int>, overwritten: seq<int>)
    ensures original == [1, 0, 0] && overwritten == [1, 0, 1]
  {
    var a := Make([true, false, false]);
    var c := Make([false, false, false, false, true]);
    c.CopyFrom(a);
    var o := c.SetBit(2, 1);
    original := Observe(a);
    overwritten := Observe(c);
  }
}
