/**
 Loads and stores in the two memory models of insns/generate.py: with
 RISCV_FORMAL_ALIGNED_MEM the specification names the aligned word and shifts bytes into
 place, without it the byte address.

 A memory has 2^width bytes and an access covers 2^lanes of them, one per lane, counted
 from its address around the end of the address space.
 */
module MemModel {
  import opened Powers
  import opened Words

  type Byte = w: Word | |w| == 8 witness [false, false, false, false, false, false, false, false]

  type Memory = seq<Byte>

  /** Address bits, and log2 of the number of byte lanes of a register. */
  datatype Shape = Shape(width: nat, lanes: nat)

  predicate Fits(c: Shape) {
    c.lanes <= c.width
  }

  function Space(c: Shape): (n: nat)
    ensures n > 0
  {
    Pow2(c.width)
  }

  function Lanes(c: Shape): (n: nat)
    ensures n > 0
  {
    Pow2(c.lanes)
  }

  /** The memory part of a retired or a specified instruction. */
  datatype Access = Access(addr: nat, rmask: Word, wmask: Word, rdata: Word, wdata: Word)

  predicate WellFormed(c: Shape, a: Access) {
    && a.addr < Space(c)
    && |a.rmask| == |a.wmask| == Lanes(c)
    && |a.rdata| == |a.wdata| == 8 * Lanes(c)
  }

  /** `w[i*8 +: 8]`. */
  function ByteOf(w: Word, i: nat): Byte
    requires 8 * i + 8 <= |w|
  {
    w[8 * i..8 * i + 8]
  }

  /** The lane of address `x` in an access at `a`. */
  function LaneOf(c: Shape, a: nat, x: nat): (o: nat)
    ensures o < Space(c)
  {
    (x - a) % Space(c)
  }

  /** Memory after a write of the masked lanes. */
  function Written(c: Shape, mem: Memory, a: nat, mask: Word, data: Word): (m: Memory)
    requires |mem| == Space(c) && |mask| == Lanes(c) && |data| == 8 * Lanes(c)
    ensures |m| == Space(c)
  {
    seq(|mem|, x requires 0 <= x < |mem| =>
      var o := LaneOf(c, a, x);
      if o < Lanes(c) && mask[o] then ByteOf(data, o) else mem[x])
  }

  /** The word of bytes at `a`. */
  function WordAt(c: Shape, mem: Memory, a: nat, n: nat): (w: Word)
    requires |mem| == Space(c)
    ensures |w| == 8 * n
  {
    seq(8 * n, k requires 0 <= k < 8 * n => mem[(a + k / 8) % Space(c)][k % 8])
  }

  /** Sign or zero extension to the register width. */
  function Extended(c: Shape, w: Word, signed: bool): Word
    requires 0 < |w| <= 8 * Lanes(c)
  {
    w + Fill(8 * Lanes(c) - |w|, signed && w[|w| - 1])
  }

  // ----------------------------------------------------------------------------------
  // What loads and stores of 2^size bytes mean
  // ----------------------------------------------------------------------------------

  function Loaded(c: Shape, mem: Memory, a: nat, size: nat, signed: bool): Word
    requires |mem| == Space(c) && size <= c.lanes
  {
    Pow2Monotone(size, c.lanes);
    Extended(c, WordAt(c, mem, a, Pow2(size)), signed)
  }

  function Stored(c: Shape, mem: Memory, a: nat, size: nat, value: Word): (m: Memory)
    requires |mem| == Space(c) && size <= c.lanes && |value| == 8 * Lanes(c)
    ensures |m| == Space(c)
  {
    Pow2Monotone(size, c.lanes);
    seq(|mem|, x requires 0 <= x < |mem| =>
      var o := LaneOf(c, a, x);
      if o < Pow2(size) then ByteOf(value, o) else mem[x])
  }

  // ----------------------------------------------------------------------------------
  // The two models
  // ----------------------------------------------------------------------------------

  /** `(1 << n) - 1` for `n` bytes. */
  function SizeMask(c: Shape, size: nat): (w: Word)
    ensures |w| == Lanes(c)
  {
    FromNat(Pow2(Pow2(size)) - 1, Lanes(c))
  }

  /** `addr & ~(XLEN/8-1)`. */
  function AlignedAddr(c: Shape, addr: nat): nat {
    ToNat(AlignDown(FromNat(addr, c.width), c.lanes))
  }

  /** `(addr & (n-1)) != 0`. */
  predicate Misaligned(c: Shape, addr: nat, size: nat) {
    And(FromNat(addr, c.width), FromNat(Pow2(size) - 1, c.width)) != Fill(c.width, false)
  }

  /** A specified instruction: what it does to memory, the value for `rd`, and whether it traps. */
  datatype Spec = Spec(mem: Access, rd: Word, trap: bool)

  /** Loads; `rdata` is the word the core reports to have read at the specified address. */
  function LoadSpec(c: Shape, alignedMem: bool, addr: nat, size: nat, signed: bool, rdata: Word): Spec
    requires Fits(c) && addr < Space(c) && size <= c.lanes && |rdata| == 8 * Lanes(c)
  {
    Pow2Monotone(size, c.lanes);
    var none, nothing := Fill(Lanes(c), false), Fill(8 * Lanes(c), false);
    if alignedMem then
      AlignDownFits(c, addr);
      var at := AlignedAddr(c, addr);
      var result := Shr(rdata, 8 * (addr - at))[..8 * Pow2(size)];
      Spec(Access(at, Shl(SizeMask(c, size), addr - at), none, rdata, nothing),
           Extended(c, result, signed), Misaligned(c, addr, size))
    else
      Spec(Access(addr, SizeMask(c, size), none, rdata, nothing),
           Extended(c, rdata[..8 * Pow2(size)], signed), false)
  }

  function StoreSpec(c: Shape, alignedMem: bool, addr: nat, size: nat, value: Word): Spec
    requires Fits(c) && addr < Space(c) && size <= c.lanes && |value| == 8 * Lanes(c)
  {
    var none, nothing := Fill(Lanes(c), false), Fill(8 * Lanes(c), false);
    if alignedMem then
      AlignDownFits(c, addr);
      var at := AlignedAddr(c, addr);
      Spec(Access(at, none, Shl(SizeMask(c, size), addr - at), nothing, Shl(value, 8 * (addr - at))),
           nothing, Misaligned(c, addr, size))
    else
      Spec(Access(addr, none, SizeMask(c, size), nothing, value), nothing, false)
  }

  lemma AlignDownFits(c: Shape, addr: nat)
    requires Fits(c) && addr < Space(c)
    ensures AlignedAddr(c, addr) == addr - addr % Lanes(c)
    ensures addr - AlignedAddr(c, addr) == addr % Lanes(c)
  {
    FromNatToNat(addr, c.width);
    DivModUnique(addr, 0, addr, Space(c));
    AlignDownValue(FromNat(addr, c.width), c.lanes);
  }

  // ----------------------------------------------------------------------------------
  // Lanes and masks
  // ----------------------------------------------------------------------------------

  lemma SizeMaskBits(c: Shape, size: nat)
    requires size <= c.lanes
    ensures forall i | 0 <= i < Lanes(c) :: SizeMask(c, size)[i] <==> i < Pow2(size)
  {
    Pow2Monotone(size, c.lanes);
    LowOnes(Pow2(size), Lanes(c));
  }

  /** Alignment is divisibility. */
  lemma MisalignedMeaning(c: Shape, addr: nat, size: nat)
    requires addr < Space(c) && size <= c.width
    ensures Misaligned(c, addr, size) <==> addr % Pow2(size) != 0
  {
    var w := FromNat(addr, c.width);
    FromNatToNat(addr, c.width);
    DivModUnique(addr, 0, addr, Space(c));
    LowOnes(size, c.width);
    var low := And(w, FromNat(Pow2(size) - 1, c.width));
    assert low == w[..size] + Fill(c.width - size, false);
    ZerosOnTop(w[..size], c.width - size);
    Cut(w, size);
    ToNatZero(c.width);
    if ToNat(low) == 0 { ToNatInjective(low, Fill(c.width, false)); }
  }

  /** Moving the start of an access moves the lanes. */
  lemma LaneShift(c: Shape, at: nat, a: nat, d: nat, x: nat)
    requires a == at + d
    ensures LaneOf(c, a, x) + d < Space(c) ==> LaneOf(c, at, x) == LaneOf(c, a, x) + d
    ensures LaneOf(c, at, x) >= d ==> LaneOf(c, a, x) == LaneOf(c, at, x) - d
  {
    var n := Space(c);
    var q, o := (x - a) / n, LaneOf(c, a, x);
    assert x - a == q * n + o;
    if o + d < n { DivModUnique(x - at, q, o + d, n); }
    var q', o' := (x - at) / n, LaneOf(c, at, x);
    assert x - at == q' * n + o';
    if o' >= d { DivModUnique(x - a, q', o' - d, n); }
  }

  /** The address in lane `o`. */
  lemma AddressOfLane(c: Shape, a: nat, o: nat)
    requires o < Space(c)
    ensures var x := (a + o) % Space(c);
            LaneOf(c, a, x) == o
  {
    var n := Space(c);
    var x := (a + o) % n;
    assert a + o == ((a + o) / n) * n + x;
    assert -((a + o) / n) * n + o == x - a;
    DivModUnique(x - a, -((a + o) / n), o, n);
  }

  /** An aligned access stays within its word. */
  lemma WithinWord(addr: nat, size: nat, lanes: nat)
    requires size <= lanes && addr % Pow2(size) == 0
    ensures addr % Pow2(lanes) + Pow2(size) <= Pow2(lanes)
  {
    var d := addr % Pow2(lanes);
    ModPow2(addr, size, lanes);
    Pow2Add(lanes - size, size);
    BlockFits(d, Pow2(size), Pow2(lanes - size));
  }

  // ----------------------------------------------------------------------------------
  // Both models mean the same
  // ----------------------------------------------------------------------------------

  /** The reported read data are those of the memory, in the lanes of the mask. */
  ghost predicate ReadsFrom(c: Shape, mem: Memory, a: nat, mask: Word, data: Word)
    requires |mem| == Space(c) && |mask| == Lanes(c) && |data| == 8 * Lanes(c)
  {
    forall x | 0 <= x < |mem| && LaneOf(c, a, x) < Lanes(c) && mask[LaneOf(c, a, x)] ::
      mem[x] == ByteOf(data, LaneOf(c, a, x))
  }

  lemma BitOfByte(w: Word, k: nat)
    requires k < |w| && |w| % 8 == 0
    ensures ByteOf(w, k / 8)[k % 8] == w[k]
  {
    assert 8 * (k / 8) + k % 8 == k;
  }

  lemma BitOfWord(c: Shape, mem: Memory, a: nat, n: nat, k: nat)
    requires |mem| == Space(c) && k < 8 * n
    ensures WordAt(c, mem, a, n)[k] == mem[(a + k / 8) % Space(c)][k % 8]
  {
  }

  /** A word whose bytes are those of the memory. */
  lemma WordOfBytes(c: Shape, mem: Memory, a: nat, n: nat, w: Word)
    requires |mem| == Space(c) && |w| == 8 * n
    requires forall i: nat | i < n :: ByteOf(w, i) == mem[(a + i) % Space(c)]
    ensures w == WordAt(c, mem, a, n)
  {
    forall k: nat | k < 8 * n
      ensures w[k] == WordAt(c, mem, a, n)[k]
    {
      BitOfByte(w, k);
      BitOfWord(c, mem, a, n, k);
      assert ByteOf(w, k / 8) == mem[(a + k / 8) % Space(c)];
    }
  }

  /** Byte `i` of a read at `addr` is in lane `i + d` of an access that starts `d` bytes earlier. */
  lemma ByteRead(c: Shape, mem: Memory, at: nat, addr: nat, d: nat, mask: Word, data: Word, i: nat)
    requires Fits(c) && |mem| == Space(c) && |mask| == Lanes(c) && |data| == 8 * Lanes(c)
    requires addr == at + d && i + d < Lanes(c) && mask[i + d]
    requires ReadsFrom(c, mem, at, mask, data)
    ensures ByteOf(data, i + d) == mem[(addr + i) % Space(c)]
  {
    Pow2Monotone(c.lanes, c.width);
    AddressOfLane(c, addr, i);
    LaneShift(c, at, addr, d, (addr + i) % Space(c));
  }

  /** Taking whole bytes out of a word. */
  lemma ShiftedByte(data: Word, d: nat, n: nat, i: nat)
    requires 8 * (d + n) <= |data| && i < n
    ensures ByteOf(Shr(data, 8 * d)[..8 * n], i) == ByteOf(data, i + d)
  {
    var w := Shr(data, 8 * d)[..8 * n];
    forall j: nat | j < 8 ensures ByteOf(w, i)[j] == ByteOf(data, i + d)[j] {
      assert ByteOf(w, i)[j] == w[8 * i + j];
      assert 8 * (i + d) + j == 8 * i + j + 8 * d;
    }
  }

  /** A word read at `at` and shifted down by `d` bytes starts with the bytes at `at + d`. */
  lemma Gathered(c: Shape, mem: Memory, at: nat, addr: nat, d: nat, n: nat, mask: Word, rdata: Word)
    requires Fits(c) && |mem| == Space(c) && |mask| == Lanes(c) && |rdata| == 8 * Lanes(c)
    requires addr == at + d && d + n <= Lanes(c) && forall i | d <= i < d + n :: mask[i]
    requires ReadsFrom(c, mem, at, mask, rdata)
    ensures Shr(rdata, 8 * d)[..8 * n] == WordAt(c, mem, addr, n)
  {
    var w := Shr(rdata, 8 * d)[..8 * n];
    forall i: nat | i < n
      ensures ByteOf(w, i) == mem[(addr + i) % Space(c)]
    {
      ShiftedByte(rdata, d, n, i);
      ByteRead(c, mem, at, addr, d, mask, rdata, i);
    }
    WordOfBytes(c, mem, addr, n, w);
  }

  /** The same without a shift. */
  lemma GatheredInPlace(c: Shape, mem: Memory, addr: nat, n: nat, mask: Word, rdata: Word)
    requires Fits(c) && |mem| == Space(c) && |mask| == Lanes(c) && |rdata| == 8 * Lanes(c)
    requires n <= Lanes(c) && forall i | 0 <= i < n :: mask[i]
    requires ReadsFrom(c, mem, addr, mask, rdata)
    ensures rdata[..8 * n] == WordAt(c, mem, addr, n)
  {
    var w := rdata[..8 * n];
    forall i: nat | i < n
      ensures ByteOf(w, i) == mem[(addr + i) % Space(c)]
    {
      Pow2Monotone(c.lanes, c.width);
      AddressOfLane(c, addr, i);
      assert ByteOf(w, i) == ByteOf(rdata, i);
    }
    WordOfBytes(c, mem, addr, n, w);
  }

  /**
   The value loaded: in either model a load that does not trap returns the extended bytes at
   its address, from every memory the reported read data agree with.
   */
  lemma LoadMeaning(c: Shape, alignedMem: bool, mem: Memory, addr: nat, size: nat, signed: bool, rdata: Word)
    requires Fits(c) && addr < Space(c) && size <= c.lanes && |rdata| == 8 * Lanes(c) && |mem| == Space(c)
    requires var spec := LoadSpec(c, alignedMem, addr, size, signed, rdata);
             !spec.trap && ReadsFrom(c, mem, spec.mem.addr, spec.mem.rmask, rdata)
    ensures LoadSpec(c, alignedMem, addr, size, signed, rdata).rd == Loaded(c, mem, addr, size, signed)
  {
    if alignedMem {
      AlignDownFits(c, addr);
      MisalignedMeaning(c, addr, size);
      AlignedLoad(c, mem, addr, size, rdata, AlignedAddr(c, addr), addr - AlignedAddr(c, addr));
    } else {
      ByteLoad(c, mem, addr, size, rdata);
    }
  }

  lemma AlignedLoad(c: Shape, mem: Memory, addr: nat, size: nat, rdata: Word, at: nat, d: nat)
    requires Fits(c) && addr < Space(c) && size <= c.lanes && |rdata| == 8 * Lanes(c) && |mem| == Space(c)
    requires addr % Pow2(size) == 0 && at == AlignedAddr(c, addr) && d == addr - at
    requires ReadsFrom(c, mem, at, Shl(SizeMask(c, size), d), rdata)
    ensures 8 * Pow2(size) <= |rdata|
    ensures Shr(rdata, 8 * d)[..8 * Pow2(size)] == WordAt(c, mem, addr, Pow2(size))
  {
    Pow2Monotone(size, c.lanes);
    AlignedMask(c, addr, size, at, d);
    Gathered(c, mem, at, addr, d, Pow2(size), Shl(SizeMask(c, size), d), rdata);
  }

  lemma ByteLoad(c: Shape, mem: Memory, addr: nat, size: nat, rdata: Word)
    requires Fits(c) && addr < Space(c) && size <= c.lanes && |rdata| == 8 * Lanes(c) && |mem| == Space(c)
    requires ReadsFrom(c, mem, addr, SizeMask(c, size), rdata)
    ensures 8 * Pow2(size) <= |rdata|
    ensures rdata[..8 * Pow2(size)] == WordAt(c, mem, addr, Pow2(size))
  {
    Pow2Monotone(size, c.lanes);
    SizeMaskBits(c, size);
    GatheredInPlace(c, mem, addr, Pow2(size), SizeMask(c, size), rdata);
  }

  /** The mask of an aligned access in the aligned model selects the bytes from its address on. */
  lemma AlignedMask(c: Shape, addr: nat, size: nat, at: nat, d: nat)
    requires Fits(c) && addr < Space(c) && size <= c.lanes
    requires addr % Pow2(size) == 0 && at == AlignedAddr(c, addr) && d == addr - at
    ensures d == addr % Lanes(c) && d + Pow2(size) <= Lanes(c)
    ensures forall i | 0 <= i < Lanes(c) :: Shl(SizeMask(c, size), d)[i] <==> d <= i < d + Pow2(size)
  {
    SizeMaskBits(c, size);
    AlignDownFits(c, addr);
    WithinWord(addr, size, c.lanes);
  }

  /** Whole bytes moved up by whole bytes. */
  lemma MovedByte(value: Word, d: nat, o: nat)
    requires 8 * (o + d) + 8 <= |value|
    ensures ByteOf(Shl(value, 8 * d), o + d) == ByteOf(value, o)
  {
    var w := Shl(value, 8 * d);
    forall j: nat | j < 8 ensures ByteOf(w, o + d)[j] == ByteOf(value, o)[j] {
      assert ByteOf(w, o + d)[j] == w[8 * (o + d) + j];
      assert 8 * (o + d) + j - 8 * d == 8 * o + j;
    }
  }

  /** Bytes moved up by `d` lanes and written `d` bytes earlier. */
  lemma Scattered(c: Shape, mem: Memory, at: nat, addr: nat, d: nat, size: nat, mask: Word, value: Word)
    requires Fits(c) && |mem| == Space(c) && |mask| == Lanes(c) && |value| == 8 * Lanes(c) && size <= c.lanes
    requires addr == at + d && d + Pow2(size) <= Lanes(c)
    requires forall i | 0 <= i < Lanes(c) :: mask[i] <==> d <= i < d + Pow2(size)
    ensures Written(c, mem, at, mask, Shl(value, 8 * d)) == Stored(c, mem, addr, size, value)
  {
    Pow2Monotone(c.lanes, c.width);
    forall x: nat | x < |mem|
      ensures Written(c, mem, at, mask, Shl(value, 8 * d))[x] == Stored(c, mem, addr, size, value)[x]
    {
      var o := LaneOf(c, addr, x);
      LaneShift(c, at, addr, d, x);
      if o < Pow2(size) { MovedByte(value, d, o); }
    }
  }

  /** The memory after a store: in either model a store that does not trap replaces the bytes at its address. */
  lemma StoreMeaning(c: Shape, alignedMem: bool, mem: Memory, addr: nat, size: nat, value: Word)
    requires Fits(c) && addr < Space(c) && size <= c.lanes && |value| == 8 * Lanes(c) && |mem| == Space(c)
    requires !StoreSpec(c, alignedMem, addr, size, value).trap
    ensures var access := StoreSpec(c, alignedMem, addr, size, value).mem;
            Written(c, mem, access.addr, access.wmask, access.wdata) == Stored(c, mem, addr, size, value)
  {
    if alignedMem {
      AlignDownFits(c, addr);
      MisalignedMeaning(c, addr, size);
      AlignedStore(c, mem, addr, size, value, AlignedAddr(c, addr), addr - AlignedAddr(c, addr));
    } else {
      ByteStore(c, mem, addr, size, value);
    }
  }

  lemma AlignedStore(c: Shape, mem: Memory, addr: nat, size: nat, value: Word, at: nat, d: nat)
    requires Fits(c) && addr < Space(c) && size <= c.lanes && |value| == 8 * Lanes(c) && |mem| == Space(c)
    requires addr % Pow2(size) == 0 && at == AlignedAddr(c, addr) && d == addr - at
    ensures Written(c, mem, at, Shl(SizeMask(c, size), d), Shl(value, 8 * d)) == Stored(c, mem, addr, size, value)
  {
    AlignedMask(c, addr, size, at, d);
    Scattered(c, mem, at, addr, d, size, Shl(SizeMask(c, size), d), value);
  }

  lemma ByteStore(c: Shape, mem: Memory, addr: nat, size: nat, value: Word)
    requires Fits(c) && addr < Space(c) && size <= c.lanes && |value| == 8 * Lanes(c) && |mem| == Space(c)
    ensures Written(c, mem, addr, SizeMask(c, size), value) == Stored(c, mem, addr, size, value)
  {
    Pow2Monotone(size, c.lanes);
    SizeMaskBits(c, size);
  }

  /** The two models of a load agree: the same value from the same memory, for every naturally aligned address. */
  lemma LoadsAgree(c: Shape, mem: Memory, addr: nat, size: nat, signed: bool)
    requires Fits(c) && addr < Space(c) && size <= c.lanes && |mem| == Space(c) && addr % Pow2(size) == 0
    ensures var wide := LoadSpec(c, true, addr, size, signed, WordAt(c, mem, AlignedAddr(c, addr), Lanes(c)));
            var narrow := LoadSpec(c, false, addr, size, signed, WordAt(c, mem, addr, Lanes(c)));
            !wide.trap && !narrow.trap && wide.rd == narrow.rd == Loaded(c, mem, addr, size, signed)
  {
    MisalignedMeaning(c, addr, size);
    var at := AlignedAddr(c, addr);
    WordReadsFrom(c, mem, at, LoadSpec(c, true, addr, size, signed, WordAt(c, mem, at, Lanes(c))).mem.rmask);
    LoadMeaning(c, true, mem, addr, size, signed, WordAt(c, mem, at, Lanes(c)));
    WordReadsFrom(c, mem, addr, LoadSpec(c, false, addr, size, signed, WordAt(c, mem, addr, Lanes(c))).mem.rmask);
    LoadMeaning(c, false, mem, addr, size, signed, WordAt(c, mem, addr, Lanes(c)));
  }

  /** The word of bytes in memory agrees with the memory. */
  lemma WordReadsFrom(c: Shape, mem: Memory, a: nat, mask: Word)
    requires Fits(c) && |mem| == Space(c) && |mask| == Lanes(c)
    ensures ReadsFrom(c, mem, a, mask, WordAt(c, mem, a, Lanes(c)))
  {
    forall x: nat | x < |mem| && LaneOf(c, a, x) < Lanes(c)
      ensures mem[x] == ByteOf(WordAt(c, mem, a, Lanes(c)), LaneOf(c, a, x))
    {
      AddressBack(c, a, x);
      ByteOfWord(c, mem, a, Lanes(c), LaneOf(c, a, x));
    }
  }

  lemma AddressBack(c: Shape, a: nat, x: nat)
    requires x < Space(c)
    ensures (a + LaneOf(c, a, x)) % Space(c) == x
  {
    var n, o := Space(c), LaneOf(c, a, x);
    assert x - a == ((x - a) / n) * n + o;
    assert a + o == -((x - a) / n) * n + x;
    DivModUnique(a + o, -((x - a) / n), x, n);
  }

  lemma ByteOfWord(c: Shape, mem: Memory, a: nat, n: nat, i: nat)
    requires |mem| == Space(c) && i < n
    ensures ByteOf(WordAt(c, mem, a, n), i) == mem[(a + i) % Space(c)]
  {
    var w, b := ByteOf(WordAt(c, mem, a, n), i), mem[(a + i) % Space(c)];
    forall j: nat | j < 8 ensures w[j] == b[j] {
      assert (8 * i + j) / 8 == i && (8 * i + j) % 8 == j;
    }
  }

  /** The two models of a store leave the same memory, for every naturally aligned address. */
  lemma StoresAgree(c: Shape, mem: Memory, addr: nat, size: nat, value: Word)
    requires Fits(c) && addr < Space(c) && size <= c.lanes && |value| == 8 * Lanes(c) && |mem| == Space(c)
    requires addr % Pow2(size) == 0
    ensures var wide, narrow := StoreSpec(c, true, addr, size, value), StoreSpec(c, false, addr, size, value);
            && !wide.trap && !narrow.trap
            && Written(c, mem, wide.mem.addr, wide.mem.wmask, wide.mem.wdata)
               == Written(c, mem, narrow.mem.addr, narrow.mem.wmask, narrow.mem.wdata)
  {
    MisalignedMeaning(c, addr, size);
    StoreMeaning(c, true, mem, addr, size, value);
    StoreMeaning(c, false, mem, addr, size, value);
  }

  /** The aligned model traps exactly on the addresses that are not naturally aligned. */
  lemma TrapsIffMisaligned(c: Shape, alignedMem: bool, addr: nat, size: nat, signed: bool, data: Word)
    requires Fits(c) && addr < Space(c) && size <= c.lanes && |data| == 8 * Lanes(c)
    ensures LoadSpec(c, alignedMem, addr, size, signed, data).trap <==> alignedMem && addr % Pow2(size) != 0
    ensures StoreSpec(c, alignedMem, addr, size, data).trap <==> alignedMem && addr % Pow2(size) != 0
  {
    MisalignedMeaning(c, addr, size);
  }

  // ----------------------------------------------------------------------------------
  // Which bytes an access covers, and which number they are
  // ----------------------------------------------------------------------------------

  /** The lanes of the mask of an access at `at` are those of the `n` bytes from `addr` on. */
  ghost predicate Selects(c: Shape, at: nat, mask: Word, addr: nat, n: nat)
    requires |mask| == Lanes(c)
  {
    forall x: nat | x < Space(c) ::
      LaneOf(c, at, x) < Lanes(c) && mask[LaneOf(c, at, x)] <==> LaneOf(c, addr, x) < n
  }

  lemma ShiftSelects(c: Shape, at: nat, addr: nat, d: nat, n: nat, mask: Word)
    requires Fits(c) && |mask| == Lanes(c) && addr == at + d && d + n <= Lanes(c)
    requires forall i | 0 <= i < Lanes(c) :: mask[i] <==> d <= i < d + n
    ensures Selects(c, at, mask, addr, n)
  {
    Pow2Monotone(c.lanes, c.width);
    forall x: nat | x < Space(c)
      ensures LaneOf(c, at, x) < Lanes(c) && mask[LaneOf(c, at, x)] <==> LaneOf(c, addr, x) < n
    {
      LaneShift(c, at, addr, d, x);
    }
  }

  /** The mask of an access of 2^size bytes at `addr`, in the aligned and in the byte model. */
  lemma AlignedMaskSelects(c: Shape, addr: nat, size: nat, at: nat, d: nat)
    requires Fits(c) && addr < Space(c) && size <= c.lanes
    requires addr % Pow2(size) == 0 && at == AlignedAddr(c, addr) && d == addr - at
    ensures Selects(c, at, Shl(SizeMask(c, size), d), addr, Pow2(size))
  {
    AlignedMask(c, addr, size, at, d);
    ShiftSelects(c, at, addr, d, Pow2(size), Shl(SizeMask(c, size), d));
  }

  lemma ByteMaskSelects(c: Shape, addr: nat, size: nat)
    requires Fits(c) && size <= c.lanes
    ensures Selects(c, addr, SizeMask(c, size), addr, Pow2(size))
  {
    SizeMaskBits(c, size);
    Pow2Monotone(size, c.lanes);
    ShiftSelects(c, addr, addr, 0, Pow2(size), SizeMask(c, size));
  }

  /** A load that does not trap claims to read exactly the bytes at its address, and writes nothing. */
  lemma LoadFootprint(c: Shape, alignedMem: bool, addr: nat, size: nat, signed: bool, rdata: Word)
    requires Fits(c) && addr < Space(c) && size <= c.lanes && |rdata| == 8 * Lanes(c)
    requires !LoadSpec(c, alignedMem, addr, size, signed, rdata).trap
    ensures var access := LoadSpec(c, alignedMem, addr, size, signed, rdata).mem;
            && access.addr == (if alignedMem then addr - addr % Lanes(c) else addr)
            && WellFormed(c, access)
            && Selects(c, access.addr, access.rmask, addr, Pow2(size))
            && forall i | 0 <= i < Lanes(c) :: !access.wmask[i]
  {
    AlignDownFits(c, addr);
    if alignedMem {
      MisalignedMeaning(c, addr, size);
      AlignedMaskSelects(c, addr, size, AlignedAddr(c, addr), addr - AlignedAddr(c, addr));
    } else {
      ByteMaskSelects(c, addr, size);
    }
  }

  /** A store that does not trap claims to write exactly the bytes at its address, and reads nothing. */
  lemma StoreFootprint(c: Shape, alignedMem: bool, addr: nat, size: nat, value: Word)
    requires Fits(c) && addr < Space(c) && size <= c.lanes && |value| == 8 * Lanes(c)
    requires !StoreSpec(c, alignedMem, addr, size, value).trap
    ensures var access := StoreSpec(c, alignedMem, addr, size, value).mem;
            && access.addr == (if alignedMem then addr - addr % Lanes(c) else addr)
            && WellFormed(c, access)
            && Selects(c, access.addr, access.wmask, addr, Pow2(size))
            && forall i | 0 <= i < Lanes(c) :: !access.rmask[i]
  {
    AlignDownFits(c, addr);
    if alignedMem {
      MisalignedMeaning(c, addr, size);
      AlignedMaskSelects(c, addr, size, AlignedAddr(c, addr), addr - AlignedAddr(c, addr));
    } else {
      ByteMaskSelects(c, addr, size);
    }
  }

  /** The little-endian number formed by `n` bytes of memory. */
  function BytesNumber(c: Shape, mem: Memory, a: nat, n: nat): nat
    requires |mem| == Space(c)
  {
    if n == 0 then 0
    else BytesNumber(c, mem, a, n - 1) + Pow2(8 * (n - 1)) * ToNat(mem[(a + (n - 1)) % Space(c)])
  }

  lemma OneMoreByte(c: Shape, mem: Memory, a: nat, n: nat)
    requires |mem| == Space(c)
    ensures WordAt(c, mem, a, n + 1) == WordAt(c, mem, a, n) + mem[(a + n) % Space(c)]
  {
    var w, b := WordAt(c, mem, a, n + 1), mem[(a + n) % Space(c)];
    forall k: nat | k < 8 * n + 8 ensures w[k] == (WordAt(c, mem, a, n) + b)[k] {
      if k >= 8 * n { assert k / 8 == n && k % 8 == k - 8 * n; }
    }
  }

  lemma {:induction false} WordNumber(c: Shape, mem: Memory, a: nat, n: nat)
    requires |mem| == Space(c)
    ensures ToNat(WordAt(c, mem, a, n)) == BytesNumber(c, mem, a, n)
  {
    if n > 0 {
      var m := n - 1;
      WordNumber(c, mem, a, m);
      OneMoreByte(c, mem, a, m);
      ToNatAppend(WordAt(c, mem, a, m), mem[(a + m) % Space(c)]);
    }
  }

  /** Extension keeps the number, read with or without sign. */
  lemma ExtendedMeaning(c: Shape, w: Word, signed: bool)
    requires 0 < |w| <= 8 * Lanes(c)
    ensures !signed ==> ToNat(Extended(c, w, signed)) == ToNat(w)
    ensures signed ==> Signed(Extended(c, w, signed)) == Signed(w)
  {
    FillOnTop(w, 8 * Lanes(c) - |w|, signed && w[|w| - 1], 8 * Lanes(c));
  }

  /** The two's-complement reading of an `n`-bit number. */
  function TwosComplement(x: nat, n: nat): int
    requires n > 0
  {
    if x >= Pow2(n - 1) then x - Pow2(n) else x
  }

  /** A load returns the little-endian number of its bytes, as it is or in two's complement. */
  lemma LoadedNumber(c: Shape, mem: Memory, a: nat, size: nat, signed: bool)
    requires |mem| == Space(c) && size <= c.lanes
    ensures var x := BytesNumber(c, mem, a, Pow2(size));
            if signed then Signed(Loaded(c, mem, a, size, signed)) == TwosComplement(x, 8 * Pow2(size))
            else ToNat(Loaded(c, mem, a, size, signed)) == x
  {
    Pow2Monotone(size, c.lanes);
    var w := WordAt(c, mem, a, Pow2(size));
    WordNumber(c, mem, a, Pow2(size));
    ExtendedMeaning(c, w, signed);
    NegativeIff(w);
  }

  // ----------------------------------------------------------------------------------
  // Stores and later loads
  // ----------------------------------------------------------------------------------

  /** A load after a store of the same size returns the truncated, extended operand. */
  lemma StoreThenLoad(c: Shape, mem: Memory, addr: nat, size: nat, value: Word, signed: bool)
    requires Fits(c) && size <= c.lanes && |value| == 8 * Lanes(c) && |mem| == Space(c)
    ensures 8 * Pow2(size) <= |value|
    ensures Loaded(c, Stored(c, mem, addr, size, value), addr, size, signed)
         == Extended(c, value[..8 * Pow2(size)], signed)
  {
    Pow2Monotone(size, c.lanes);
    StoredBytes(c, mem, addr, size, value);
  }

  lemma StoredBytes(c: Shape, mem: Memory, addr: nat, size: nat, value: Word)
    requires Fits(c) && size <= c.lanes && |value| == 8 * Lanes(c) && |mem| == Space(c)
    requires Pow2(size) <= Lanes(c)
    ensures WordAt(c, Stored(c, mem, addr, size, value), addr, Pow2(size)) == value[..8 * Pow2(size)]
  {
    var w, after := value[..8 * Pow2(size)], Stored(c, mem, addr, size, value);
    forall i: nat | i < Pow2(size)
      ensures ByteOf(w, i) == after[(addr + i) % Space(c)]
    {
      Pow2Monotone(c.lanes, c.width);
      AddressOfLane(c, addr, i);
      assert ByteOf(w, i) == ByteOf(value, i);
    }
    WordOfBytes(c, after, addr, Pow2(size), w);
  }

  /** A load whose bytes all lie outside a store is not affected by it. */
  lemma StoreElsewhere(c: Shape, mem: Memory, addr: nat, size: nat, value: Word, b: nat, read: nat, signed: bool)
    requires Fits(c) && size <= c.lanes && read <= c.lanes && |value| == 8 * Lanes(c) && |mem| == Space(c)
    requires forall x: nat | x < |mem| && LaneOf(c, b, x) < Pow2(read) :: LaneOf(c, addr, x) >= Pow2(size)
    ensures Loaded(c, Stored(c, mem, addr, size, value), b, read, signed) == Loaded(c, mem, b, read, signed)
  {
    Pow2Monotone(read, c.width);
    SameBytes(c, mem, Stored(c, mem, addr, size, value), b, Pow2(read));
  }

  lemma SameBytes(c: Shape, m: Memory, m': Memory, b: nat, n: nat)
    requires |m| == |m'| == Space(c) && n <= Space(c)
    requires forall x: nat | x < |m| && LaneOf(c, b, x) < n :: m'[x] == m[x]
    ensures WordAt(c, m', b, n) == WordAt(c, m, b, n)
  {
    forall k: nat | k < 8 * n
      ensures WordAt(c, m', b, n)[k] == WordAt(c, m, b, n)[k]
    {
      AddressOfLane(c, b, k / 8);
    }
  }
}
