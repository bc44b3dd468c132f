/** Words as bit lists, least significant bit first, with the bit operators of Verilog on them. */
module Words {
  import opened Powers

  type Word = seq<bool>

  /** The number formed by the `n` lowest bits. */
  function LowBits(w: Word, n: nat): nat
    requires n <= |w|
  {
    if n == 0 then 0 else LowBits(w, n - 1) + if w[n - 1] then Pow2(n - 1) else 0
  }

  function ToNat(w: Word): nat {
    LowBits(w, |w|)
  }

  predicate Negative(w: Word) {
    w != [] && w[|w| - 1]
  }

  /** The reading of a word with its highest bit counted as negative or not. */
  function Reading(w: Word, negative: bool): int {
    if negative then ToNat(w) - Pow2(|w|) else ToNat(w)
  }

  /** The two's-complement reading. */
  function Signed(w: Word): int {
    Reading(w, Negative(w))
  }

  /** The low `width` bits of `n`. */
  function FromNat(n: nat, width: nat): (w: Word)
    ensures |w| == width
  {
    seq(width, k requires 0 <= k => n / Pow2(k) % 2 == 1)
  }

  function Fill(width: nat, b: bool): Word {
    seq(width, k => b)
  }

  function Not(w: Word): Word {
    seq(|w|, k requires 0 <= k < |w| => !w[k])
  }

  function And(a: Word, b: Word): Word
    requires |a| == |b|
  {
    seq(|a|, k requires 0 <= k < |a| => a[k] && b[k])
  }

  function Or(a: Word, b: Word): Word
    requires |a| == |b|
  {
    seq(|a|, k requires 0 <= k < |a| => a[k] || b[k])
  }

  function Xor(a: Word, b: Word): Word
    requires |a| == |b|
  {
    seq(|a|, k requires 0 <= k < |a| => a[k] != b[k])
  }

  /** Shifts keep the width. */
  function Shl(w: Word, n: nat): Word {
    seq(|w|, k requires 0 <= k < |w| => k >= n && w[k - n])
  }

  function Shr(w: Word, n: nat): Word {
    seq(|w|, k requires 0 <= k < |w| => k + n < |w| && w[k + n])
  }

  function Reverse(w: Word): Word {
    seq(|w|, k requires 0 <= k < |w| => w[|w| - 1 - k])
  }

  /** `w & 1`, the lowest bit. */
  predicate LowBit(w: Word) {
    w != [] && w[0]
  }

  function Add(a: Word, b: Word): Word
    requires |a| == |b|
  {
    FromNat(ToNat(a) + ToNat(b), |a|)
  }

  /** `w & ~(2^k - 1)`. */
  function AlignDown(w: Word, k: nat): (r: Word)
    ensures |r| == |w|
  {
    And(w, Not(FromNat(Pow2(k) - 1, |w|)))
  }

  // ----------------------------------------------------------------------------------
  // Words as numbers
  // ----------------------------------------------------------------------------------

  lemma {:induction false} LowBitsBound(w: Word, n: nat)
    requires n <= |w|
    ensures LowBits(w, n) < Pow2(n)
  {
    if n > 0 { LowBitsBound(w, n - 1); }
  }

  lemma ToNatBound(w: Word)
    ensures ToNat(w) < Pow2(|w|)
  {
    LowBitsBound(w, |w|);
  }

  lemma {:induction false} LowBitsAgree(a: Word, b: Word, n: nat)
    requires n <= |a| && n <= |b| && forall k | 0 <= k < n :: a[k] == b[k]
    ensures LowBits(a, n) == LowBits(b, n)
  {
    if n > 0 { LowBitsAgree(a, b, n - 1); }
  }

  /** Numbers of equal width have equal bits when they are equal. */
  lemma {:induction false} LowBitsInjective(a: Word, b: Word, n: nat)
    requires n <= |a| && n <= |b| && LowBits(a, n) == LowBits(b, n)
    ensures forall k | 0 <= k < n :: a[k] == b[k]
  {
    if n > 0 {
      LowBitsBound(a, n - 1);
      LowBitsBound(b, n - 1);
      LowBitsInjective(a, b, n - 1);
    }
  }

  lemma {:induction false} LowBitsFromNat(n: nat, width: nat, k: nat)
    requires k <= width
    ensures LowBits(FromNat(n, width), k) == n % Pow2(k)
  {
    if k > 0 {
      LowBitsFromNat(n, width, k - 1);
      NextBit(n, Pow2(k - 1));
    }
  }

  lemma NextBit(n: nat, p: nat)
    requires p > 0
    ensures n % (2 * p) == n % p + if n / p % 2 == 1 then p else 0
  {
    var q := n / p;
    assert n == q * p + n % p;
    Regroup(q / 2, p);
    if q % 2 == 1 {
      assert (2 * (q / 2) + 1) * p == 2 * (q / 2 * p) + p;
      DivModUnique(n, q / 2, n % p + p, 2 * p);
    } else {
      assert (2 * (q / 2)) * p == 2 * (q / 2 * p);
      DivModUnique(n, q / 2, n % p, 2 * p);
    }
  }

  lemma Regroup(q: int, p: int)
    ensures q * (2 * p) == 2 * (q * p)
  {
  }

  lemma FromNatToNat(n: nat, width: nat)
    ensures ToNat(FromNat(n, width)) == n % Pow2(width)
  {
    LowBitsFromNat(n, width, width);
  }

  /** Equal numbers of equal width are equal words. */
  lemma ToNatInjective(a: Word, b: Word)
    requires |a| == |b| && ToNat(a) == ToNat(b)
    ensures a == b
  {
    LowBitsInjective(a, b, |a|);
  }

  lemma ToNatFromNat(w: Word)
    ensures FromNat(ToNat(w), |w|) == w
  {
    ToNatBound(w);
    FromNatToNat(ToNat(w), |w|);
    DivModUnique(ToNat(w), 0, ToNat(w), Pow2(|w|));
    ToNatInjective(FromNat(ToNat(w), |w|), w);
  }

  lemma ZeroIff(w: Word)
    ensures ToNat(w) == 0 <==> w == Fill(|w|, false)
  {
    LowBitsUniform(|w|, false, |w|);
    if ToNat(w) == 0 { ToNatInjective(w, Fill(|w|, false)); }
  }

  /** The highest bit is set in the upper half of the numbers. */
  lemma NegativeIff(w: Word)
    requires w != []
    ensures Negative(w) <==> ToNat(w) >= Pow2(|w| - 1)
  {
    LowBitsBound(w, |w| - 1);
  }

  lemma {:induction false} LowBitsAppend(a: Word, b: Word, n: nat)
    requires n <= |b|
    ensures LowBits(a + b, |a| + n) == ToNat(a) + Pow2(|a|) * LowBits(b, n)
  {
    if n == 0 {
      LowBitsAgree(a + b, a, |a|);
      assert Pow2(|a|) * 0 == 0;
    } else {
      LowBitsAppend(a, b, n - 1);
      assert (a + b)[|a| + n - 1] == b[n - 1];
      Pow2Add(|a|, n - 1);
      Distribute(Pow2(|a|), LowBits(b, n - 1), Pow2(n - 1));
    }
  }

  lemma Distribute(p: nat, x: nat, y: nat)
    ensures p * (x + y) == p * x + p * y
  {
  }

  lemma ToNatAppend(a: Word, b: Word)
    ensures ToNat(a + b) == ToNat(a) + Pow2(|a|) * ToNat(b)
  {
    LowBitsAppend(a, b, |b|);
  }

  lemma BitOnTop(a: Word, b: bool)
    ensures ToNat(a + [b]) == ToNat(a) + if b then Pow2(|a|) else 0
  {
    LowBitsAgree(a + [b], a, |a|);
  }

  lemma {:induction false} LowBitsFill(a: Word, n: nat, b: bool, m: nat)
    requires m <= n
    ensures LowBits(a + Fill(n, b), |a| + m) == ToNat(a) + if b then Pow2(|a| + m) - Pow2(|a|) else 0
  {
    if m == 0 {
      LowBitsAgree(a + Fill(n, b), a, |a|);
    } else {
      LowBitsFill(a, n, b, m - 1);
    }
  }

  /** Filling up with ones adds the difference of two powers of two, with zeros nothing. */
  lemma FillOnTop(a: Word, n: nat, b: bool, width: nat)
    requires width == |a| + n
    ensures ToNat(a + Fill(n, b)) == ToNat(a) + if b then Pow2(width) - Pow2(|a|) else 0
  {
    LowBitsFill(a, n, b, n);
  }

  lemma ZerosOnTop(a: Word, n: nat)
    ensures ToNat(a + Fill(n, false)) == ToNat(a)
  {
    FillOnTop(a, n, false, |a| + n);
  }

  lemma {:induction false} LowBitsUniform(n: nat, b: bool, m: nat)
    requires m <= n
    ensures LowBits(Fill(n, b), m) == if b then Pow2(m) - 1 else 0
  {
    if m > 0 { LowBitsUniform(n, b, m - 1); }
  }

  lemma ToNatZero(width: nat)
    ensures ToNat(Fill(width, false)) == 0
  {
    LowBitsUniform(width, false, width);
  }

  lemma ToNatOnes(width: nat)
    ensures ToNat(Fill(width, true)) == Pow2(width) - 1
  {
    LowBitsUniform(width, true, width);
  }

  /** Cutting a word at bit `k` is division by 2^k. */
  lemma Cut(w: Word, k: nat)
    requires k <= |w|
    ensures ToNat(w[..k]) == ToNat(w) % Pow2(k)
    ensures ToNat(w[k..]) == ToNat(w) / Pow2(k)
    ensures ToNat(w) == ToNat(w[..k]) + Pow2(k) * ToNat(w[k..])
  {
    assert w == w[..k] + w[k..];
    ToNatAppend(w[..k], w[k..]);
    ToNatBound(w[..k]);
    CutNumbers(ToNat(w), ToNat(w[..k]), ToNat(w[k..]), Pow2(k));
  }

  lemma CutNumbers(n: nat, low: nat, high: nat, p: nat)
    requires low < p && n == low + p * high
    ensures n % p == low && n / p == high
  {
    assert n == high * p + low;
    DivModUnique(n, high, low, p);
  }

  lemma CutFromNat(n: nat, k: nat, width: nat)
    requires k <= width
    ensures ToNat(FromNat(n, width)[..k]) == n % Pow2(k)
  {
    Cut(FromNat(n, width), k);
    FromNatToNat(n, width);
    ModPow2(n, k, width);
  }

  // ----------------------------------------------------------------------------------
  // Masks
  // ----------------------------------------------------------------------------------

  /** `'1 << k`: clears the low `k` bits. */
  lemma HighMask(w: Word, k: nat)
    requires k <= |w|
    ensures And(w, Shl(Fill(|w|, true), k)) == Fill(k, false) + w[k..]
    ensures ToNat(And(w, Shl(Fill(|w|, true), k))) == ToNat(w) - ToNat(w) % Pow2(k)
  {
    assert And(w, Shl(Fill(|w|, true), k)) == Fill(k, false) + w[k..];
    ToNatAppend(Fill(k, false), w[k..]);
    ToNatZero(k);
    Cut(w, k);
  }

  lemma LowOnes(k: nat, width: nat)
    requires k <= width
    ensures FromNat(Pow2(k) - 1, width) == Fill(k, true) + Fill(width - k, false)
  {
    var w := Fill(k, true) + Fill(width - k, false);
    ZerosOnTop(Fill(k, true), width - k);
    ToNatOnes(k);
    ToNatFromNat(w);
  }

  lemma NotLowOnes(k: nat, width: nat)
    requires k <= width
    ensures Not(Fill(k, true) + Fill(width - k, false)) == Shl(Fill(width, true), k)
  {
  }

  lemma AlignMask(width: nat, k: nat)
    requires k <= width
    ensures Not(FromNat(Pow2(k) - 1, width)) == Shl(Fill(width, true), k)
  {
    LowOnes(k, width);
    NotLowOnes(k, width);
  }

  lemma AlignDownValue(w: Word, k: nat)
    requires k <= |w|
    ensures AlignDown(w, k) == Fill(k, false) + w[k..]
    ensures ToNat(AlignDown(w, k)) == ToNat(w) - ToNat(w) % Pow2(k)
  {
    assert AlignDown(w, k) == And(w, Shl(Fill(|w|, true), k)) by { AlignMask(|w|, k); }
    HighMask(w, k);
  }

  /** Choosing the low `e` bits from one word and the others from another. */
  lemma SelectLow(low: Word, high: Word, mask: Word, e: nat)
    requires |low| == |high| == |mask| && e <= |low|
    requires mask == Not(Shl(Fill(|mask|, true), e))
    ensures Or(And(mask, low), And(Not(mask), high)) == low[..e] + high[e..]
    ensures ToNat(Or(And(mask, low), And(Not(mask), high)))
         == ToNat(low) % Pow2(e) + ToNat(high) - ToNat(high) % Pow2(e)
  {
    assert Or(And(mask, low), And(Not(mask), high)) == low[..e] + high[e..];
    ToNatAppend(low[..e], high[e..]);
    Cut(low, e);
    Cut(high, e);
  }
}
