/**
 The carry-less multiplications of insns/insn_clmul.v, insn_clmulh.v and insn_clmulr.v.

 A word is read as a polynomial over GF(2), bit `k` being the coefficient of x^k.  The
 reference is the full product of two polynomials; the three instructions each compute
 one window of it, with their own loop.
 */
module Clmul {
  import opened Powers
  import opened Words
  import BitPerm

  // ----------------------------------------------------------------------------------
  // The product of two polynomials over GF(2)
  // ----------------------------------------------------------------------------------

  /** Whether an odd number of the bits are set. */
  predicate Parity(s: seq<bool>) {
    if s == [] then false else Parity(s[..|s| - 1]) != s[|s| - 1]
  }

  /** The product of the coefficients of x^i in `b` and of x^(k-i) in `a`. */
  predicate Term(a: Word, b: Word, k: nat, i: nat) {
    i < |b| && b[i] && i <= k && k - i < |a| && a[k - i]
  }

  function Terms(a: Word, b: Word, k: nat, n: nat): (s: seq<bool>)
    ensures |s| == n
  {
    seq(n, i requires 0 <= i < n => Term(a, b, k, i))
  }

  /** The coefficient of x^k in the product of `a` and `b`. */
  predicate Coefficient(a: Word, b: Word, k: nat) {
    Parity(Terms(a, b, k, |b|))
  }

  /** The product of two polynomials. */
  function Product(a: Word, b: Word): (w: Word)
    ensures |w| == |a| + |b|
  {
    seq(|a| + |b|, k requires 0 <= k < |a| + |b| => Coefficient(a, b, k))
  }

  // ----------------------------------------------------------------------------------
  // The three loops
  // ----------------------------------------------------------------------------------

  lemma NextTerm(a: Word, b: Word, k: nat, n: nat)
    ensures Parity(Terms(a, b, k, n + 1)) == (Parity(Terms(a, b, k, n)) != Term(a, b, k, n))
  {
    assert Terms(a, b, k, n + 1)[..n] == Terms(a, b, k, n);
  }

  /** The coefficients from x^from on, with the first `n` terms of each. */
  function Partial(a: Word, b: Word, from: nat, n: nat): (w: Word)
    ensures |w| == |a|
  {
    seq(|a|, k requires 0 <= k < |a| => Parity(Terms(a, b, from + k, n)))
  }

  lemma NextPartial(a: Word, b: Word, from: nat, n: nat)
    ensures forall k | 0 <= k < |a| ::
              Partial(a, b, from, n + 1)[k] == (Partial(a, b, from, n)[k] != Term(a, b, from + k, n))
  {
    forall k | 0 <= k < |a|
      ensures Partial(a, b, from, n + 1)[k] == (Partial(a, b, from, n)[k] != Term(a, b, from + k, n))
    {
      NextTerm(a, b, from + k, n);
    }
  }

  lemma NoTerms(a: Word, b: Word, from: nat)
    ensures Partial(a, b, from, 0) == Fill(|a|, false)
  {
    forall k: nat | k < |a|
      ensures Partial(a, b, from, 0)[k] == false
    {
      ParityOfNone(Terms(a, b, from + k, 0));
    }
  }

  method CarryLessLow(a: Word, b: Word) returns (result: Word)
    requires |a| == |b|
    ensures result == Product(a, b)[..|a|]
  {
    result := Fill(|a|, false);
    NoTerms(a, b, 0);
    for i := 0 to |a|
      invariant result == Partial(a, b, 0, i)
    {
      NextPartial(a, b, 0, i);
      if LowBit(Shr(b, i)) {
        result := Xor(result, Shl(a, i));
      }
    }
  }

  method CarryLessHigh(a: Word, b: Word) returns (result: Word)
    requires |a| == |b|
    ensures result == Product(a, b)[|a|..]
  {
    result := Fill(|a|, false);
    NoTerms(a, b, |a|);
    NextPartial(a, b, |a|, 0);
    for i := 1 to |a| + 1
      invariant result == Partial(a, b, |a|, i)
    {
      NextPartial(a, b, |a|, i);
      if LowBit(Shr(b, i)) {
        result := Xor(result, Shr(a, |a| - i));
      }
    }
    NextPartial(a, b, |a|, |a|);
    assert forall k | 0 <= k < |a| :: Product(a, b)[|a|..][k] == Partial(a, b, |a|, |a|)[k];
    assert result == Partial(a, b, |a|, |a|);
  }

  method CarryLessReversed(a: Word, b: Word) returns (result: Word)
    requires |a| == |b|
    ensures |result| == |a|
    ensures |a| > 0 ==> result == Product(a, b)[|a| - 1..2 * |a| - 1]
  {
    result := Fill(|a|, false);
    if |a| > 0 { NoTerms(a, b, |a| - 1); }
    for i := 0 to |a|
      invariant |result| == |a|
      invariant |a| > 0 ==> result == Partial(a, b, |a| - 1, i)
    {
      NextPartial(a, b, |a| - 1, i);
      if LowBit(Shr(b, i)) {
        result := Xor(result, Shr(a, |a| - i - 1));
      }
    }
  }

  // ----------------------------------------------------------------------------------
  // The windows of the product, as functions
  // ----------------------------------------------------------------------------------

  function Low(a: Word, b: Word): Word
    requires |a| == |b|
  {
    Product(a, b)[..|a|]
  }

  function High(a: Word, b: Word): Word
    requires |a| == |b|
  {
    Product(a, b)[|a|..]
  }

  function Middle(a: Word, b: Word): Word
    requires |a| == |b|
  {
    if a == [] then [] else Product(a, b)[|a| - 1..2 * |a| - 1]
  }

  // ----------------------------------------------------------------------------------
  // Laws
  // ----------------------------------------------------------------------------------

  lemma {:induction false} ParityAppend(s: seq<bool>, t: seq<bool>)
    ensures Parity(s + t) == (Parity(s) != Parity(t))
    decreases |t|
  {
    if t == [] {
      assert s + t == s;
    } else {
      var n := |t| - 1;
      assert (s + t)[..|s + t| - 1] == s + t[..n];
      ParityAppend(s, t[..n]);
    }
  }

  lemma {:induction false} ParityOfNone(s: seq<bool>)
    requires forall i | 0 <= i < |s| :: !s[i]
    ensures !Parity(s)
  {
    if s != [] { ParityOfNone(s[..|s| - 1]); }
  }

  lemma {:induction false} ParityReverse(s: seq<bool>)
    ensures Parity(Reverse(s)) == Parity(s)
  {
    if s != [] {
      var n := |s| - 1;
      ParityReverse(s[..n]);
      assert Reverse(s) == [s[n]] + Reverse(s[..n]);
      ParityAppend([s[n]], Reverse(s[..n]));
      assert Parity([s[n]]) == s[n];
    }
  }

  /** Terms beyond the last coefficient of `b` do not count. */
  lemma TermsBeyond(a: Word, b: Word, k: nat, n: nat)
    requires n >= |b|
    ensures Parity(Terms(a, b, k, n)) == Coefficient(a, b, k)
  {
    var s := Terms(a, b, k, n);
    assert s == s[..|b|] + s[|b|..] && s[..|b|] == Terms(a, b, k, |b|);
    ParityAppend(s[..|b|], s[|b|..]);
    ParityOfNone(s[|b|..]);
  }

  /** Nor do terms with an index above `k`. */
  lemma TermsUpTo(a: Word, b: Word, k: nat)
    ensures Parity(Terms(a, b, k, k + 1)) == Coefficient(a, b, k)
  {
    var n := k + 1 + |b|;
    TermsBeyond(a, b, k, n);
    var s := Terms(a, b, k, n);
    assert s == s[..k + 1] + s[k + 1..] && s[..k + 1] == Terms(a, b, k, k + 1);
    ParityAppend(s[..k + 1], s[k + 1..]);
    ParityOfNone(s[k + 1..]);
  }

  lemma CoefficientCommutes(a: Word, b: Word, k: nat)
    ensures Coefficient(a, b, k) == Coefficient(b, a, k)
  {
    TermsUpTo(a, b, k);
    TermsUpTo(b, a, k);
    assert Terms(a, b, k, k + 1) == Reverse(Terms(b, a, k, k + 1));
    ParityReverse(Terms(b, a, k, k + 1));
  }

  lemma ProductCommutes(a: Word, b: Word)
    ensures Product(a, b) == Product(b, a)
  {
    forall k: nat { CoefficientCommutes(a, b, k); }
  }

  /** All three instructions are commutative. */
  lemma InstructionsCommute(a: Word, b: Word)
    requires |a| == |b|
    ensures Low(a, b) == Low(b, a) && High(a, b) == High(b, a) && Middle(a, b) == Middle(b, a)
  {
    ProductCommutes(a, b);
  }

  /** The product is at most of degree 2 X - 2. */
  lemma TopCoefficient(a: Word, b: Word)
    requires |a| == |b| > 0
    ensures !Product(a, b)[2 * |a| - 1]
  {
    ParityOfNone(Terms(a, b, 2 * |a| - 1, |b|));
  }

  /** `clmulh : clmul` is the full product, as a polynomial and as a number. */
  lemma HalvesMakeTheProduct(a: Word, b: Word)
    requires |a| == |b|
    ensures Low(a, b) + High(a, b) == Product(a, b)
    ensures ToNat(Product(a, b)) == ToNat(Low(a, b)) + Pow2(|a|) * ToNat(High(a, b))
  {
    HalvesOf(Product(a, b), |a|);
  }

  lemma HalvesOf(p: Word, n: nat)
    requires n <= |p|
    ensures p[..n] + p[n..] == p && ToNat(p) == ToNat(p[..n]) + Pow2(n) * ToNat(p[n..])
  {
    Cut(p, n);
  }

  /** One bit of the product shifted right by X - 1. */
  lemma ShiftedBit(p: Word, n: nat, k: nat)
    requires |p| == 2 * n && n > 0 && k < 2 * n && !p[2 * n - 1]
    ensures Shr(p, n - 1)[k] == (p[n - 1..2 * n - 1] + Fill(n, false))[k]
  {
    if k == n { assert k + (n - 1) == 2 * n - 1; }
  }

  /** `clmulr` is the product shifted right by X - 1, and nothing is cut off at the top. */
  lemma MiddleIsShifted(a: Word, b: Word)
    requires |a| == |b| > 0
    ensures Shr(Product(a, b), |a| - 1) == Middle(a, b) + Fill(|a|, false)
    ensures High(a, b) == Shr(Middle(a, b), 1)
  {
    var p, n := Product(a, b), |a|;
    TopCoefficient(a, b);
    forall k: nat | k < 2 * n ensures Shr(p, n - 1)[k] == (Middle(a, b) + Fill(n, false))[k] {
      ShiftedBit(p, n, k);
    }
    forall k: nat | k < n ensures High(a, b)[k] == Shr(Middle(a, b), 1)[k] {
      HighBit(p, n, k);
    }
  }

  lemma HighBit(p: Word, n: nat, k: nat)
    requires |p| == 2 * n && k < n && !p[2 * n - 1]
    ensures p[n..][k] == Shr(p[n - 1..2 * n - 1], 1)[k]
  {
    if k == n - 1 { assert n + k == 2 * n - 1; }
  }

  lemma ReversedCoefficient(a: Word, b: Word, k: nat)
    requires |a| == |b| && k < |a|
    ensures Coefficient(a, b, |a| - 1 + k) == Coefficient(Reverse(a), Reverse(b), |a| - 1 - k)
  {
    var s := Terms(Reverse(a), Reverse(b), |a| - 1 - k, |a|);
    assert Terms(a, b, |a| - 1 + k, |a|) == Reverse(s);
    ParityReverse(s);
  }

  lemma MiddleBit(a: Word, b: Word, k: nat)
    requires |a| == |b| && k < |a|
    ensures Middle(a, b)[k] == Coefficient(a, b, |a| - 1 + k)
  {
  }

  lemma LowBits(a: Word, b: Word, k: nat)
    requires |a| == |b| && k < |a|
    ensures Low(a, b)[k] == Coefficient(a, b, k)
  {
  }

  /** Multiplying reversed words gives the reversed upper half: clmulr(a, b) = R(clmul(R(a), R(b))). */
  lemma MiddleIsReversedLow(a: Word, b: Word)
    requires |a| == |b|
    ensures Middle(a, b) == Reverse(Low(Reverse(a), Reverse(b)))
  {
    forall k: nat | k < |a|
      ensures Middle(a, b)[k] == Reverse(Low(Reverse(a), Reverse(b)))[k]
    {
      MiddleBit(a, b, k);
      LowBits(Reverse(a), Reverse(b), |a| - 1 - k);
      ReversedCoefficient(a, b, k);
    }
  }

  /** The same with the instructions that reverse bits within bytes and bytes within a word. */
  lemma MiddleByByteReversals(a: Word, b: Word)
    requires |a| == |b| && |a| % 8 == 0
    ensures Middle(a, b) == Rev(Low(Rev(a), Rev(b)))
  {
    BitPerm.ByteReversals(a);
    BitPerm.ByteReversals(b);
    BitPerm.ByteReversals(Low(Rev(a), Rev(b)));
    MiddleIsReversedLow(a, b);
  }

  /** `rev8` after `brev8`. */
  function Rev(w: Word): (r: Word)
    requires |w| % 8 == 0
    ensures |r| == |w|
  {
    BitPerm.BytesReversed(BitPerm.BytesReversedInside(w))
  }

  /** The product is linear in its second factor: adding polynomials is exclusive or. */
  lemma ProductDistributes(a: Word, b: Word, c: Word)
    requires |b| == |c|
    ensures Product(a, Xor(b, c)) == Xor(Product(a, b), Product(a, c))
  {
    forall k: nat
      ensures Coefficient(a, Xor(b, c), k) == (Coefficient(a, b, k) != Coefficient(a, c, k))
    {
      ParityOfXor(Terms(a, b, k, |b|), Terms(a, c, k, |b|));
      assert Terms(a, Xor(b, c), k, |b|) == Xor(Terms(a, b, k, |b|), Terms(a, c, k, |b|));
    }
  }

  // ----------------------------------------------------------------------------------
  // The product is what shifting and adding by hand gives
  // ----------------------------------------------------------------------------------

  /** The sum of `a` shifted by the place of each of the first `n` set bits of `b`, in full width. */
  function ShiftedSum(a: Word, b: Word, n: nat): (w: Word)
    requires n <= |b|
    ensures |w| == |a| + |b|
  {
    if n == 0 then Fill(|a| + |b|, false)
    else
      var rest := ShiftedSum(a, b, n - 1);
      if b[n - 1] then Xor(rest, Shl(a + Fill(|b|, false), n - 1)) else rest
  }

  lemma {:induction false} SumBits(a: Word, b: Word, n: nat, k: nat)
    requires n <= |b| && k < |a| + |b|
    ensures ShiftedSum(a, b, n)[k] == Parity(Terms(a, b, k, n))
  {
    if n > 0 {
      SumBits(a, b, n - 1, k);
      NextTerm(a, b, k, n - 1);
    }
  }

  /** For all operands the product is the schoolbook sum of shifted copies of `a`. */
  lemma ProductIsShiftedSum(a: Word, b: Word)
    ensures Product(a, b) == ShiftedSum(a, b, |b|)
  {
    forall k: nat | k < |a| + |b| ensures Product(a, b)[k] == ShiftedSum(a, b, |b|)[k] {
      SumBits(a, b, |b|, k);
    }
  }

  /** The word is x^i. */
  predicate Monomial(w: Word, i: nat) {
    i < |w| && w[i] && forall k | 0 <= k < |w| && k != i :: !w[k]
  }

  lemma {:induction false} OneShift(a: Word, w: Word, i: nat, n: nat)
    requires Monomial(w, i) && n <= |w|
    ensures ShiftedSum(a, w, n) == if i < n then Shl(a + Fill(|w|, false), i) else Fill(|a| + |w|, false)
  {
    if n > 0 { OneShift(a, w, i, n - 1); }
  }

  /** Multiplying by x^i shifts by i places; with linearity this fixes the product of any two operands. */
  lemma ProductByMonomial(a: Word, w: Word, i: nat)
    requires Monomial(w, i)
    ensures Product(a, w) == Shl(a + Fill(|w|, false), i)
  {
    ProductIsShiftedSum(a, w);
    OneShift(a, w, i, |w|);
  }

  lemma {:induction false} ParityOfXor(s: seq<bool>, t: seq<bool>)
    requires |s| == |t|
    ensures Parity(Xor(s, t)) == (Parity(s) != Parity(t))
  {
    if s != [] {
      var n := |s| - 1;
      assert Xor(s, t)[..n] == Xor(s[..n], t[..n]);
      ParityOfXor(s[..n], t[..n]);
    }
  }
}
