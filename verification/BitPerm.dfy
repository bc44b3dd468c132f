/**
 The bit and byte permutations and the bit counts of insns/generate.py: `zip` and `unzip`,
 `brev8` and `rev8`, `clz`, `ctz` and `cpop`.  Each instruction is a loop that fills or
 updates `result`; the width of the register is arbitrary, a multiple of 8 where bytes
 matter and even where halves matter.
 */
module BitPerm {
  import opened Powers
  import opened Words

  // ----------------------------------------------------------------------------------
  // Where each bit comes from
  // ----------------------------------------------------------------------------------

  /** Interleaves the two halves of a word. */
  function Zipped(w: Word): (z: Word)
    requires |w| % 2 == 0
    ensures |z| == |w|
  {
    seq(|w|, k requires 0 <= k < |w| => if k % 2 == 0 then w[k / 2] else w[k / 2 + |w| / 2])
  }

  /** Even bits to the lower half, odd bits to the upper half. */
  function Unzipped(w: Word): (u: Word)
    requires |w| % 2 == 0
    ensures |u| == |w|
  {
    seq(|w|, k requires 0 <= k < |w| => if k < |w| / 2 then w[2 * k] else w[2 * (k - |w| / 2) + 1])
  }

  /** Reverses the bits within each byte. */
  function BytesReversedInside(w: Word): (r: Word)
    requires |w| % 8 == 0
    ensures |r| == |w|
  {
    seq(|w|, k requires 0 <= k < |w| => w[k / 8 * 8 + 7 - k % 8])
  }

  /** Reverses the order of the bytes. */
  function BytesReversed(w: Word): (r: Word)
    requires |w| % 8 == 0
    ensures |r| == |w|
  {
    seq(|w|, k requires 0 <= k < |w| => w[(|w| / 8 - 1 - k / 8) * 8 + k % 8])
  }

  // ----------------------------------------------------------------------------------
  // The loops
  // ----------------------------------------------------------------------------------

  method Zip(w: Word) returns (result: Word)
    requires |w| % 2 == 0
    ensures result == Zipped(w)
  {
    result := Fill(|w|, false);
    for i := 0 to |w| / 2
      invariant |result| == |w|
      invariant forall k | 0 <= k < 2 * i :: result[k] == Zipped(w)[k]
    {
      result := result[2 * i := w[i]];
      result := result[2 * i + 1 := w[i + |w| / 2]];
    }
  }

  method Unzip(w: Word) returns (result: Word)
    requires |w| % 2 == 0
    ensures result == Unzipped(w)
  {
    result := Fill(|w|, false);
    for i := 0 to |w| / 2
      invariant |result| == |w|
      invariant forall k | 0 <= k < i :: result[k] == Unzipped(w)[k]
      invariant forall k | |w| / 2 <= k < |w| / 2 + i :: result[k] == Unzipped(w)[k]
    {
      result := result[i := w[2 * i]];
      result := result[i + |w| / 2 := w[2 * i + 1]];
    }
  }

  method Brev8(w: Word) returns (result: Word)
    requires |w| % 8 == 0
    ensures result == BytesReversedInside(w)
  {
    var nbytes := |w| / 8;
    result := Fill(|w|, false);
    for i := 0 to nbytes
      invariant |result| == |w|
      invariant forall k | 0 <= k < i * 8 :: result[k] == BytesReversedInside(w)[k]
    {
      for j := 0 to 8
        invariant |result| == |w|
        invariant forall k | 0 <= k < i * 8 + j :: result[k] == BytesReversedInside(w)[k]
      {
        result := result[i * 8 + j := w[(i + 1) * 8 - (j + 1)]];
      }
    }
  }

  /** The place that bit `k` of byte `i` comes from. */
  lemma ByteInPlace(n: nat, i: nat, k: nat)
    requires i < n && i * 8 <= k < i * 8 + 8
    ensures (n - 1 - k / 8) * 8 + k % 8 == (n - i) * 8 - 8 + (k - i * 8)
  {
    assert k / 8 == i;
  }

  method Rev8(w: Word) returns (result: Word)
    requires |w| % 8 == 0
    ensures result == BytesReversed(w)
  {
    var nbytes := |w| / 8;
    result := Fill(|w|, false);
    for i := 0 to nbytes
      invariant |result| == |w|
      invariant forall k | 0 <= k < i * 8 :: result[k] == BytesReversed(w)[k]
    {
      var top := (nbytes - i) * 8 - 1;
      result := result[..i * 8] + w[top - 7..top + 1] + result[i * 8 + 8..];
      forall k | i * 8 <= k < i * 8 + 8 ensures w[top - 7..top + 1][k - i * 8] == BytesReversed(w)[k] {
        ByteInPlace(nbytes, i, k);
      }
    }
  }

  // ----------------------------------------------------------------------------------
  // Laws of the permutations
  // ----------------------------------------------------------------------------------

  lemma ZipIndex(w: Word, k: nat)
    requires |w| % 2 == 0 && k < |w|
    ensures Unzipped(Zipped(w))[k] == w[k] && Zipped(Unzipped(w))[k] == w[k]
  {
    var half := |w| / 2;
    if k < half {
      assert Unzipped(Zipped(w))[k] == Zipped(w)[2 * k];
    } else {
      assert Unzipped(Zipped(w))[k] == Zipped(w)[2 * (k - half) + 1];
    }
    if k % 2 == 0 {
      assert Zipped(Unzipped(w))[k] == Unzipped(w)[k / 2];
    } else {
      assert Zipped(Unzipped(w))[k] == Unzipped(w)[k / 2 + half];
    }
  }

  /** `zip` and `unzip` are mutually inverse. */
  lemma ZipUnzip(w: Word)
    requires |w| % 2 == 0
    ensures Unzipped(Zipped(w)) == w && Zipped(Unzipped(w)) == w
  {
    forall k: nat | k < |w|
      ensures Unzipped(Zipped(w))[k] == w[k] && Zipped(Unzipped(w))[k] == w[k]
    {
      ZipIndex(w, k);
    }
  }

  /** Byte and bit of the places the two reversals read. */
  lemma ReversedPlaces(n: nat, k: nat)
    requires k < 8 * n
    ensures var outer, inner := (n - 1 - k / 8) * 8 + k % 8, k / 8 * 8 + 7 - k % 8;
            && 0 <= outer < 8 * n && outer / 8 == n - 1 - k / 8 && outer % 8 == k % 8
            && 0 <= inner < 8 * n && inner / 8 == k / 8 && inner % 8 == 7 - k % 8
  {
  }

  /** What the two reversals read, given byte and bit of the place. */
  lemma ReversedBit(w: Word, k: nat, n: nat)
    requires |w| == 8 * n && k < |w|
    ensures |w| % 8 == 0
    ensures var outer, inner := (n - 1 - k / 8) * 8 + k % 8, k / 8 * 8 + 7 - k % 8;
            && 0 <= outer < |w| && BytesReversed(w)[k] == w[outer]
            && 0 <= inner < |w| && BytesReversedInside(w)[k] == w[inner]
  {
    ReversedPlaces(n, k);
    assert |w| / 8 == n;
  }

  lemma ReversalsAt(w: Word, k: nat)
    requires |w| % 8 == 0 && k < |w|
    ensures BytesReversedInside(BytesReversedInside(w))[k] == w[k]
    ensures BytesReversed(BytesReversed(w))[k] == w[k]
    ensures BytesReversed(BytesReversedInside(w))[k] == w[|w| - 1 - k]
    ensures BytesReversedInside(BytesReversed(w))[k] == w[|w| - 1 - k]
  {
    var n := |w| / 8;
    ReversedPlaces(n, k);
    var outer, inner := (n - 1 - k / 8) * 8 + k % 8, k / 8 * 8 + 7 - k % 8;
    ReversedPlaces(n, outer);
    ReversedPlaces(n, inner);
    ReversedBit(w, outer, n);
    ReversedBit(w, inner, n);
    ReversedBit(BytesReversed(w), k, n);
    ReversedBit(BytesReversedInside(w), k, n);
  }

  /** `brev8` and `rev8` are involutions; in either order they make the reversal of the whole word. */
  lemma ByteReversals(w: Word)
    requires |w| % 8 == 0
    ensures BytesReversedInside(BytesReversedInside(w)) == w
    ensures BytesReversed(BytesReversed(w)) == w
    ensures BytesReversed(BytesReversedInside(w)) == Reverse(w)
    ensures BytesReversedInside(BytesReversed(w)) == Reverse(w)
  {
    forall k: nat | k < |w|
      ensures BytesReversedInside(BytesReversedInside(w))[k] == w[k]
      ensures BytesReversed(BytesReversed(w))[k] == w[k]
      ensures BytesReversed(BytesReversedInside(w))[k] == Reverse(w)[k]
      ensures BytesReversedInside(BytesReversed(w))[k] == Reverse(w)[k]
    {
      ReversalsAt(w, k);
    }
  }

  // ----------------------------------------------------------------------------------
  // The permutations built up from the front
  // ----------------------------------------------------------------------------------

  /** Takes one bit of each word in turn. */
  function Interleaved(low: Word, high: Word): (w: Word)
    requires |low| == |high|
    ensures |w| == 2 * |low|
  {
    if low == [] then [] else [low[0], high[0]] + Interleaved(low[1..], high[1..])
  }

  lemma {:induction false} InterleavedBit(low: Word, high: Word, k: nat)
    requires |low| == |high| && k < 2 * |low|
    ensures Interleaved(low, high)[k] == if k % 2 == 0 then low[k / 2] else high[k / 2]
  {
    if k >= 2 {
      InterleavedBit(low[1..], high[1..], k - 2);
      assert Interleaved(low, high)[k] == Interleaved(low[1..], high[1..])[k - 2];
    }
  }

  /** `zip` takes the bits of the two halves in turn, and `unzip` puts them back. */
  lemma ZipInterleaves(low: Word, high: Word)
    requires |low| == |high|
    ensures |low + high| % 2 == 0 && Zipped(low + high) == Interleaved(low, high)
    ensures Unzipped(Interleaved(low, high)) == low + high
  {
    var w := low + high;
    assert |w| / 2 == |low| && |w| % 2 == 0;
    forall k: nat | k < |w| ensures Zipped(w)[k] == Interleaved(low, high)[k] {
      InterleavedBit(low, high, k);
    }
    assert Zipped(w) == Interleaved(low, high);
    ZipUnzip(w);
  }

  /** `brev8` reverses the first byte, and the others in the same way. */
  lemma Brev8FirstByte(byte: Word, rest: Word)
    requires |byte| == 8 && |rest| % 8 == 0
    ensures |byte + rest| % 8 == 0
    ensures BytesReversedInside(byte + rest) == Reverse(byte) + BytesReversedInside(rest)
  {
    var w := byte + rest;
    forall k: nat | k < |w| ensures BytesReversedInside(w)[k] == (Reverse(byte) + BytesReversedInside(rest))[k] {
      if k >= 8 { PlaceBehind(k, k - 8); }
    }
  }

  lemma PlaceBehind(k: nat, j: nat)
    requires k == j + 8
    ensures k / 8 == j / 8 + 1 && k % 8 == j % 8
  {
  }

  /** `rev8` puts the first byte behind the others. */
  lemma Rev8FirstByte(byte: Word, rest: Word)
    requires |byte| == 8 && |rest| % 8 == 0
    ensures |byte + rest| % 8 == 0
    ensures BytesReversed(byte + rest) == BytesReversed(rest) + byte
  {
    var w := byte + rest;
    assert |w| / 8 == |rest| / 8 + 1;
    forall k: nat | k < |w| ensures BytesReversed(w)[k] == (BytesReversed(rest) + byte)[k] {
      ReversedPlaces(|w| / 8, k);
      assert k / 8 == |rest| / 8 <==> k >= |rest|;
    }
  }

  // ----------------------------------------------------------------------------------
  // Counts
  // ----------------------------------------------------------------------------------

  /** The number of zeros before the first one, from bit 0 up. */
  function TrailingZeros(w: Word): (n: nat)
    ensures n <= |w|
    ensures forall k | 0 <= k < n :: !w[k]
    ensures n < |w| ==> w[n]
  {
    if w == [] || w[0] then 0 else 1 + TrailingZeros(w[1..])
  }

  /** The number of zeros above the last one. */
  function LeadingZeros(w: Word): (n: nat)
    ensures n <= |w|
    ensures forall k | |w| - n <= k < |w| :: !w[k]
    ensures n < |w| ==> w[|w| - 1 - n]
  {
    if w == [] || w[|w| - 1] then 0 else 1 + LeadingZeros(w[..|w| - 1])
  }

  function Ones(w: Word): (n: nat)
    ensures n <= |w|
  {
    if w == [] then 0 else Ones(w[..|w| - 1]) + if w[|w| - 1] then 1 else 0
  }

  /** A count of bits fits the register. */
  lemma {:induction false} WidthFits(x: nat)
    ensures x < Pow2(x)
  {
    if x > 0 { WidthFits(x - 1); }
  }

  lemma Fits(n: nat, x: nat)
    requires n <= x
    ensures n % Pow2(x) == n
  {
    WidthFits(x);
    DivModUnique(n, 0, n, Pow2(x));
  }

  method Clz(w: Word) returns (result: nat)
    ensures result == LeadingZeros(w)
  {
    result := 0;
    for i := 0 to |w|
      invariant result == LeadingZeros(w[..i])
    {
      assert w[..i + 1][..i] == w[..i];
      if w[i] {
        result := 0;
      } else {
        Fits(result + 1, |w|);
        result := (result + 1) % Pow2(|w|);
      }
    }
    assert w[..|w|] == w;
  }

  method Ctz(w: Word) returns (result: nat)
    ensures result == TrailingZeros(w)
  {
    result := 0;
    var found := false;
    for i := 0 to |w|
      invariant found <==> exists k :: 0 <= k < i && w[k]
      invariant result == if found then TrailingZeros(w) else i
      invariant found ==> TrailingZeros(w) < i
    {
      found := found || w[i];
      if !(w[i] || found) {
        Fits(result + 1, |w|);
        result := (result + 1) % Pow2(|w|);
      }
    }
  }

  method Cpop(w: Word) returns (result: nat)
    ensures result == Ones(w)
  {
    result := 0;
    for i := 0 to |w|
      invariant result == Ones(w[..i])
    {
      assert w[..i + 1][..i] == w[..i];
      Fits(Ones(w[..i + 1]), |w|);
      result := (result + (if w[i] then 1 else 0)) % Pow2(|w|);
    }
    assert w[..|w|] == w;
  }

  /** Counting from the one end is counting from the other in the reversed word. */
  lemma ReversalSwapsCounts(w: Word)
    ensures TrailingZeros(w) == LeadingZeros(Reverse(w))
    ensures LeadingZeros(w) == TrailingZeros(Reverse(w))
    ensures Ones(w) == Ones(Reverse(w))
  {
    CountsAgree(w, Reverse(w));
    assert Reverse(Reverse(w)) == w;
    CountsAgree(Reverse(w), w);
    OnesReversed(w);
  }

  lemma CountsAgree(w: Word, r: Word)
    requires r == Reverse(w)
    ensures TrailingZeros(w) == LeadingZeros(r)
  {
    var n := LeadingZeros(r);
    forall k | 0 <= k < n ensures !w[k] {
      assert !r[|w| - 1 - k];
    }
    TrailingZerosUnique(w, n);
  }

  lemma {:induction false} TrailingZerosUnique(w: Word, n: nat)
    requires n <= |w| && (forall k | 0 <= k < n :: !w[k]) && (n < |w| ==> w[n])
    ensures TrailingZeros(w) == n
  {
    if n > 0 { TrailingZerosUnique(w[1..], n - 1); }
  }

  lemma {:induction false} OnesReversed(w: Word)
    ensures Ones(w) == Ones(Reverse(w))
  {
    if w != [] {
      var n := |w| - 1;
      OnesReversed(w[..n]);
      assert Reverse(w) == [w[n]] + Reverse(w[..n]);
      OnesAppend([w[n]], Reverse(w[..n]));
      assert Ones([w[n]]) == if w[n] then 1 else 0;
    }
  }

  lemma {:induction false} OnesAppend(a: Word, b: Word)
    ensures Ones(a + b) == Ones(a) + Ones(b)
    decreases |b|
  {
    if b == [] {
      assert a + b == a;
    } else {
      assert (a + b)[..|a + b| - 1] == a + b[..|b| - 1];
      OnesAppend(a, b[..|b| - 1]);
    }
  }

  /** Both counts of zeros give the width exactly for the zero word. */
  lemma ZeroWord(w: Word)
    ensures TrailingZeros(w) == |w| <==> w == Fill(|w|, false)
    ensures LeadingZeros(w) == |w| <==> w == Fill(|w|, false)
    ensures Ones(w) == 0 <==> w == Fill(|w|, false)
  {
    NoOnes(w);
  }

  lemma {:induction false} NoOnes(w: Word)
    ensures Ones(w) == 0 <==> w == Fill(|w|, false)
  {
    if w != [] {
      var n := |w| - 1;
      NoOnes(w[..n]);
      if w[..n] == Fill(n, false) && !w[n] {
        assert w == w[..n] + [w[n]];
      }
      if w == Fill(|w|, false) {
        assert w[..n] == Fill(n, false);
      }
    }
  }

  /** `clz` measures the number: a word with `n` leading zeros lies below 2^(X-n), and no lower power of two. */
  lemma {:induction false} LeadingZerosMeasures(w: Word)
    ensures ToNat(w) < Pow2(|w| - LeadingZeros(w))
    ensures LeadingZeros(w) < |w| ==> Pow2(|w| - LeadingZeros(w) - 1) <= ToNat(w)
  {
    if w != [] {
      var n := |w| - 1;
      assert w == w[..n] + [w[n]];
      BitOnTop(w[..n], w[n]);
      if w[n] {
        ToNatBound(w[..n]);
      } else {
        LeadingZerosMeasures(w[..n]);
      }
    }
  }

  /** `ctz` measures divisibility: 2^n divides a word with `n` trailing zeros, and no higher power does. */
  lemma TrailingZerosDivides(w: Word, n: nat)
    requires n <= |w|
    ensures ToNat(w) % Pow2(n) == 0 <==> n <= TrailingZeros(w)
  {
    Cut(w, n);
    if n <= TrailingZeros(w) {
      assert w[..n] == Fill(n, false);
      ToNatZero(n);
    } else {
      assert w[..n][TrailingZeros(w)];
      assert w[..n] != Fill(n, false);
      ToNatZero(n);
      if ToNat(w[..n]) == 0 { ToNatInjective(w[..n], Fill(n, false)); }
    }
  }
}
