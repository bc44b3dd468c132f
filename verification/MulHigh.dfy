/**
 The multiplications of insns/generate.py: `mul`, and the three upper halves `mulh`, `mulhsu`
 and `mulhu`, computed as products of operands extended to twice the width.

 Reference: section 7.1 of the RISC-V Unprivileged ISA, version 20191213.
 */
module MulHigh {
  import opened Powers
  import opened Words

  // ----------------------------------------------------------------------------------
  // The instructions
  // ----------------------------------------------------------------------------------

  /** Twice the width, filled with `b`. */
  function Extended(a: Word, b: bool): (w: Word)
    ensures |w| == 2 * |a|
  {
    a + Fill(|a|, b)
  }

  function SignExtended(a: Word): (w: Word)
    ensures |w| == 2 * |a|
  {
    Extended(a, Negative(a))
  }

  function ZeroExtended(a: Word): (w: Word)
    ensures |w| == 2 * |a|
  {
    Extended(a, false)
  }

  /** A Verilog product keeps the width of its operands. */
  function Times(a: Word, b: Word): (w: Word)
    requires |a| == |b|
    ensures |w| == |a|
  {
    FromNat(ToNat(a) * ToNat(b), |a|)
  }

  /** `(x * y) >> X`, assigned to X bits. */
  function UpperHalf(x: Word, y: Word, width: nat): (w: Word)
    requires |x| == |y| == 2 * width
    ensures |w| == width
  {
    Shr(Times(x, y), width)[..width]
  }

  function Mul(a: Word, b: Word): (w: Word)
    requires |a| == |b|
    ensures |w| == |a|
  {
    Times(a, b)
  }

  function Mulh(a: Word, b: Word): (w: Word)
    requires |a| == |b|
    ensures |w| == |a|
  {
    UpperHalf(SignExtended(a), SignExtended(b), |a|)
  }

  function Mulhsu(a: Word, b: Word): (w: Word)
    requires |a| == |b|
    ensures |w| == |a|
  {
    UpperHalf(SignExtended(a), ZeroExtended(b), |a|)
  }

  function Mulhu(a: Word, b: Word): (w: Word)
    requires |a| == |b|
    ensures |w| == |a|
  {
    UpperHalf(ZeroExtended(a), ZeroExtended(b), |a|)
  }

  // ----------------------------------------------------------------------------------
  // Readings
  // ----------------------------------------------------------------------------------

  lemma SignedRange(w: Word)
    requires w != []
    ensures 0 - Pow2(|w| - 1) <= Signed(w) < Pow2(|w| - 1)
  {
    var n := |w| - 1;
    assert w == w[..n] + [w[n]];
    BitOnTop(w[..n], w[n]);
    ToNatBound(w[..n]);
  }

  /** A word is read as the only number in range with its remainder. */
  lemma SignedUnique(w: Word, v: int)
    requires w != [] && 0 - Pow2(|w| - 1) <= v < Pow2(|w| - 1)
    requires ToNat(w) == v % Pow2(|w|)
    ensures Signed(w) == v
  {
    SignedRange(w);
    if v < 0 {
      DivModUnique(v, -1, v + Pow2(|w|), Pow2(|w|));
    } else {
      DivModUnique(v, 0, v, Pow2(|w|));
    }
  }

  lemma ExtendedValue(a: Word, b: bool)
    ensures ToNat(Extended(a, b)) == ToNat(a) + if b then Pow2(2 * |a|) - Pow2(|a|) else 0
  {
    FillOnTop(a, |a|, b, 2 * |a|);
  }

  /** Extending by the sign keeps the signed reading modulo 2^(2X). */
  lemma ExtendedRemainder(a: Word, b: bool)
    ensures ToNat(Extended(a, b)) % Pow2(2 * |a|) == Reading(a, b) % Pow2(2 * |a|)
  {
    ExtendedValue(a, b);
    if b {
      AddModulus(Reading(a, b), Pow2(2 * |a|));
      assert ToNat(Extended(a, b)) == Reading(a, b) + Pow2(2 * |a|);
    }
  }

  lemma AddModulus(x: int, m: int)
    requires m > 0
    ensures (x + m) % m == x % m
  {
    assert x == (x / m) * m + x % m;
    assert (x / m + 1) * m == (x / m) * m + m;
    DivModUnique(x + m, x / m + 1, x % m, m);
  }

  lemma ZeroExtendedValue(a: Word)
    ensures ToNat(ZeroExtended(a)) == ToNat(a)
  {
    ExtendedValue(a, false);
  }

  // ----------------------------------------------------------------------------------
  // The two halves of the wide product
  // ----------------------------------------------------------------------------------

  lemma UpperHalfIs(x: Word, y: Word, width: nat)
    requires |x| == |y| == 2 * width
    ensures UpperHalf(x, y, width) == Times(x, y)[width..]
  {
  }

  lemma LowerHalfValue(x: Word, y: Word, width: nat)
    requires |x| == |y| >= width
    ensures ToNat(Times(x, y)[..width]) == ToNat(x) * ToNat(y) % Pow2(width)
  {
    CutFromNat(ToNat(x) * ToNat(y), width, |x|);
  }

  lemma CutRemainder(x: Word, width: nat)
    requires |x| >= width
    ensures ToNat(x[..width]) % Pow2(width) == ToNat(x) % Pow2(width)
  {
    Cut(x, width);
    ModPow2(ToNat(x), width, width);
  }

  /** The lower half of a wide product depends on the lower halves of the operands only. */
  lemma LowerHalfIs(x: Word, y: Word, width: nat)
    requires |x| == |y| == 2 * width
    ensures Times(x, y)[..width] == Times(x[..width], y[..width])
  {
    LowerHalfValue(x, y, width);
    FromNatToNat(ToNat(x[..width]) * ToNat(y[..width]), width);
    CutRemainder(x, width);
    CutRemainder(y, width);
    ModProduct(ToNat(x), ToNat(y), ToNat(x[..width]), ToNat(y[..width]), Pow2(width));
    ToNatInjective(Times(x, y)[..width], Times(x[..width], y[..width]));
  }

  /** `mul` with any of the upper halves is the whole wide product. */
  lemma HalvesMakeWide(x: Word, y: Word, a: Word, b: Word)
    requires |a| == |b| && |x| == |y| == 2 * |a|
    requires x[..|a|] == a && y[..|a|] == b
    ensures Mul(a, b) + UpperHalf(x, y, |a|) == Times(x, y)
  {
    UpperHalfIs(x, y, |a|);
    LowerHalfIs(x, y, |a|);
  }

  /** A wide product is the product of the readings modulo 2^(2X). */
  lemma WideValue(x: Word, y: Word, u: int, v: int)
    requires |x| == |y|
    requires ToNat(x) % Pow2(|x|) == u % Pow2(|x|) && ToNat(y) % Pow2(|x|) == v % Pow2(|x|)
    ensures ToNat(Times(x, y)) == u * v % Pow2(|x|)
  {
    FromNatToNat(ToNat(x) * ToNat(y), |x|);
    ModProduct(ToNat(x), ToNat(y), u, v, Pow2(|x|));
  }

  // ----------------------------------------------------------------------------------
  // Exactness
  // ----------------------------------------------------------------------------------

  lemma ProductRange(u: int, v: int, h: int, k: int)
    requires h >= 0 && k >= 0 && -h <= u <= h && -k <= v <= k
    ensures -(h * k) <= u * v <= h * k
  {
    if u >= 0 && v >= 0 {
      TimesUp(u, v, h, k);
    } else if u >= 0 {
      TimesUp(u, -v, h, k);
      assert u * v == -(u * -v);
    } else if v >= 0 {
      TimesUp(-u, v, h, k);
      assert u * v == -(-u * v);
    } else {
      TimesUp(-u, -v, h, k);
      assert u * v == -u * -v;
    }
  }

  lemma TimesUp(u: int, v: int, h: int, k: int)
    requires 0 <= u <= h && 0 <= v <= k
    ensures 0 <= u * v <= h * k
  {
    assert u * v <= h * v by { assert h * v == u * v + (h - u) * v; }
    assert h * v <= h * k by { assert h * k == h * v + h * (k - v); }
  }

  lemma SignedProductRange(a: Word, b: Word)
    requires |a| == |b| > 0
    ensures 0 - Pow2(2 * |a| - 1) <= Signed(a) * Signed(b) < Pow2(2 * |a| - 1)
  {
    SignedRange(a);
    SignedRange(b);
    ProductRange(Signed(a), Signed(b), Pow2(|a| - 1), Pow2(|a| - 1));
    Pow2Add(|a| - 1, |a| - 1);
  }

  lemma MixedProductRange(a: Word, b: Word)
    requires |a| == |b| > 0
    ensures 0 - Pow2(2 * |a| - 1) <= Signed(a) * ToNat(b) < Pow2(2 * |a| - 1)
  {
    SignedRange(a);
    ToNatBound(b);
    MixedRange(Signed(a), ToNat(b), Pow2(|a| - 1), Pow2(|a|));
    Pow2Add(|a| - 1, |a|);
  }

  lemma MixedRange(u: int, v: int, h: nat, p: nat)
    requires 0 - h <= u < h && 0 <= v < p
    ensures -(h * p) <= u * v < h * p
  {
    ProductRange(u, v, h, p - 1);
    assert h * (p - 1) == h * p - h;
  }

  lemma UnsignedProductRange(a: Word, b: Word)
    requires |a| == |b|
    ensures 0 <= ToNat(a) * ToNat(b) < Pow2(2 * |a|)
  {
    ToNatBound(a);
    ToNatBound(b);
    UnsignedRange(ToNat(a), ToNat(b), Pow2(|a|));
    Pow2Add(|a|, |a|);
  }

  lemma UnsignedRange(u: nat, v: nat, p: nat)
    requires u < p && v < p
    ensures 0 <= u * v < p * p
  {
    TimesUp(u, v, p - 1, p - 1);
    assert (p - 1) * (p - 1) == p * p - 2 * p + 1;
  }

  /** `mulh : mul` is the exact product of the signed readings. */
  lemma MulhExact(a: Word, b: Word)
    requires |a| == |b| > 0
    ensures Signed(Mul(a, b) + Mulh(a, b)) == Signed(a) * Signed(b)
  {
    var x, y := SignExtended(a), SignExtended(b);
    HalvesMakeWide(x, y, a, b);
    ExtendedRemainder(a, Negative(a));
    ExtendedRemainder(b, Negative(b));
    WideValue(x, y, Signed(a), Signed(b));
    SignedProductRange(a, b);
    SignedUnique(Times(x, y), Signed(a) * Signed(b));
  }

  /** `mulhsu : mul` is the exact product of the signed first and the unsigned second operand. */
  lemma MulhsuExact(a: Word, b: Word)
    requires |a| == |b| > 0
    ensures Signed(Mul(a, b) + Mulhsu(a, b)) == Signed(a) * ToNat(b)
  {
    var x, y := SignExtended(a), ZeroExtended(b);
    HalvesMakeWide(x, y, a, b);
    ExtendedRemainder(a, Negative(a));
    ZeroExtendedValue(b);
    WideValue(x, y, Signed(a), ToNat(b));
    MixedProductRange(a, b);
    SignedUnique(Times(x, y), Signed(a) * ToNat(b));
  }

  /** `mulhu : mul` is the exact product of the unsigned readings. */
  lemma MulhuExact(a: Word, b: Word)
    requires |a| == |b|
    ensures ToNat(Mul(a, b) + Mulhu(a, b)) == ToNat(a) * ToNat(b)
  {
    var x, y := ZeroExtended(a), ZeroExtended(b);
    HalvesMakeWide(x, y, a, b);
    ZeroExtendedValue(a);
    ZeroExtendedValue(b);
    WideValue(x, y, ToNat(a), ToNat(b));
    UnsignedProductRange(a, b);
    Small(ToNat(a) * ToNat(b), Pow2(2 * |a|));
  }

  lemma Small(n: nat, m: nat)
    requires n < m
    ensures n % m == n
  {
  }
}
