/** The meaning of a codeword: a sequence of bits, bit 0 first.  These
    definitions are what the packed representation is proved against. */
module BitSeq {

  /** The all-zero codeword of `n` bits. */
  function Zeros(n: nat): (z: seq<bool>)
    ensures |z| == n
  {
    seq(n, _ => false)
  }

  /** Component-wise exclusive-or of two codewords of equal length. */
  function XorBits(u: seq<bool>, v: seq<bool>): (w: seq<bool>)
    requires |u| == |v|
    ensures |w| == |u|
  {
    seq(|u|, i requires 0 <= i < |u| => u[i] != v[i])
  }

  /** The digit written for one bit. */
  function Digit(b: bool): char {
    if b then '1' else '0'
  }

  /** The digits of `bits`, one per bit, in ascending index order. */
  function Digits(bits: seq<bool>): (s: string)
    ensures |s| == |bits|
  {
    if bits == [] then [] else Digits(bits[..|bits| - 1]) + [Digit(bits[|bits| - 1])]
  }

  /** The text a codeword is printed as: its digits in parentheses. */
  function Rendered(bits: seq<bool>): (s: string)
    ensures |s| == |bits| + 2
  {
    "(" + Digits(bits) + ")"
  }

  /** A codeword is the zero codeword exactly when none of its bits is set. */
  lemma ZerosAreZero(u: seq<bool>)
    ensures u == Zeros(|u|) <==> forall i :: 0 <= i < |u| ==> !u[i]
  {
    if forall i :: 0 <= i < |u| ==> !u[i] {
      assert forall i :: 0 <= i < |u| ==> u[i] == Zeros(|u|)[i];
    }
  }

  lemma XorCommutative(u: seq<bool>, v: seq<bool>)
    requires |u| == |v|
    ensures XorBits(u, v) == XorBits(v, u)
  {
  }

  lemma XorAssociative(u: seq<bool>, v: seq<bool>, w: seq<bool>)
    requires |u| == |v| == |w|
    ensures XorBits(XorBits(u, v), w) == XorBits(u, XorBits(v, w))
  {
  }

  lemma XorZeroIdentity(u: seq<bool>)
    ensures XorBits(u, Zeros(|u|)) == u
  {
  }

  lemma XorSelfIsZero(u: seq<bool>)
    ensures XorBits(u, u) == Zeros(|u|)
  {
  }

  /** XOR is self-inverse: adding `x` twice gives back `y`. */
  lemma XorCancels(x: seq<bool>, y: seq<bool>)
    requires |x| == |y|
    ensures XorBits(x, XorBits(x, y)) == y
  {
  }

  /** Two codewords of one length are equal exactly when their sum is zero. */
  lemma XorZeroIffEqual(u: seq<bool>, v: seq<bool>)
    requires |u| == |v|
    ensures XorBits(u, v) == Zeros(|u|) <==> u == v
  {
    if XorBits(u, v) == Zeros(|u|) {
      assert forall i :: 0 <= i < |u| ==> u[i] == v[i] by {
        forall i | 0 <= i < |u| ensures u[i] == v[i] {
          assert XorBits(u, v)[i] == Zeros(|u|)[i];
        }
      }
    }
  }

  /** Character `i + 1` of the rendering is the digit of bit `i`. */
  lemma {:induction false} DigitsAt(bits: seq<bool>, i: nat)
    requires i < |bits|
    ensures Digits(bits)[i] == Digit(bits[i])
  {
    if i < |bits| - 1 {
      DigitsAt(bits[..|bits| - 1], i);
    }
  }

  lemma RenderedShape(bits: seq<bool>)
    ensures Rendered(bits)[0] == '(' && Rendered(bits)[|bits| + 1] == ')'
    ensures forall i :: 0 <= i < |bits| ==> Rendered(bits)[i + 1] == (if bits[i] then '1' else '0')
  {
    forall i | 0 <= i < |bits| ensures Rendered(bits)[i + 1] == (if bits[i] then '1' else '0') {
      DigitsAt(bits, i);
    }
  }
}
