/**
 The assertions of checks/rvfi_insn_check.sv about a retired instruction, and what they say
 about memory.

 The checker compares byte lanes of what the core reports with byte lanes of what the
 instruction model specifies.  Here the two are given their effect on a whole memory.
 */
module InsnCheck {
  import opened Interface
  import opened MemModel
  import opened Powers
  import opened Words

  // ----------------------------------------------------------------------------------
  // The assertions
  // ----------------------------------------------------------------------------------

  /** What the core reports. */
  datatype Retired = Retired(
    rs1Addr: nat, rs1: Word, rs2Addr: nat, rs2: Word, rdAddr: nat, rd: Word,
    pc: nat, nextPc: nat, mem: Access, trap: bool)

  /** What the instruction model specifies. */
  datatype Expected = Expected(
    rs1Addr: nat, rs2Addr: nat, rdAddr: nat, rd: Word, nextPc: nat, mem: Access, trap: bool)

  /** The address macro and the outcome of the three lookups of physical memory attributes. */
  datatype Platform = Platform(valid: nat -> bool, fetchable: bool, readable: bool, writable: bool)

  predicate AnySet(mask: Word) {
    exists i :: 0 <= i < |mask| && mask[i]
  }

  predicate Faults(p: Platform, pc: nat, spec: Access) {
    || !p.valid(pc)
    || !p.fetchable
    || (AnySet(spec.rmask) && !p.readable)
    || (AnySet(spec.wmask) && !p.writable)
    || ((AnySet(spec.rmask) || AnySet(spec.wmask)) && !p.valid(spec.addr))
  }

  /** The assertions of one round of the byte loop about writes. */
  predicate WriteLaneOk(c: Shape, spec: Access, core: Access, i: nat)
    requires WellFormed(c, spec) && WellFormed(c, core) && i < Lanes(c)
  {
    if spec.wmask[i] then core.wmask[i] && ByteOf(spec.wdata, i) == ByteOf(core.wdata, i)
    else core.wmask[i] ==> core.rmask[i] && ByteOf(core.rdata, i) == ByteOf(core.wdata, i)
  }

  predicate ReadLaneOk(c: Shape, spec: Access, core: Access, i: nat)
    requires WellFormed(c, spec) && WellFormed(c, core) && i < Lanes(c)
  {
    spec.rmask[i] ==> core.rmask[i]
  }

  /** Everything asserted about memory when neither a fault nor a trap is specified. */
  predicate MemoryOk(c: Shape, p: Platform, spec: Access, core: Access)
    requires WellFormed(c, spec) && WellFormed(c, core)
  {
    && (AnySet(spec.wmask) || AnySet(spec.rmask) ==> AddrEq(p.valid, spec.addr, core.addr))
    && forall i: nat | i < Lanes(c) :: WriteLaneOk(c, spec, core, i) && ReadLaneOk(c, spec, core, i)
  }

  /** All assertions of a checked instruction. */
  predicate Passes(c: Shape, p: Platform, spec: Expected, core: Retired)
    requires WellFormed(c, spec.mem) && WellFormed(c, core.mem)
  {
    if Faults(p, core.pc, spec.mem) then
      core.trap && core.rdAddr == 0 && core.rd == Fill(|core.rd|, false) && !AnySet(core.mem.wmask)
    else
      && (core.rs1Addr == 0 ==> core.rs1 == Fill(|core.rs1|, false))
      && (core.rs2Addr == 0 ==> core.rs2 == Fill(|core.rs2|, false))
      && (!spec.trap ==>
          && (spec.rs1Addr != 0 ==> spec.rs1Addr == core.rs1Addr)
          && (spec.rs2Addr != 0 ==> spec.rs2Addr == core.rs2Addr)
          && spec.rdAddr == core.rdAddr && spec.rd == core.rd
          && AddrEq(p.valid, spec.nextPc, core.nextPc)
          && MemoryOk(c, p, spec.mem, core.mem))
      && spec.trap == core.trap
  }

  // ----------------------------------------------------------------------------------
  // Effects on memory
  // ----------------------------------------------------------------------------------

  function After(c: Shape, mem: Memory, a: Access): (m: Memory)
    requires WellFormed(c, a) && |mem| == Space(c)
    ensures |m| == Space(c)
  {
    Written(c, mem, a.addr, a.wmask, a.wdata)
  }

  /** The memory is one in which the core could have read what it reports. */
  ghost predicate Explains(c: Shape, mem: Memory, core: Access)
    requires WellFormed(c, core)
  {
    |mem| == Space(c) && ReadsFrom(c, mem, core.addr, core.rmask, core.rdata)
  }

  /** Whatever memory the reads came from, the core leaves what the specification leaves. */
  ghost predicate SameEffect(c: Shape, spec: Access, core: Access)
    requires WellFormed(c, spec) && WellFormed(c, core)
  {
    forall mem: Memory | Explains(c, mem, core) :: After(c, mem, core) == After(c, mem, spec)
  }

  /** One address of the memory after a passing write. */
  lemma EffectAt(c: Shape, spec: Access, core: Access, mem: Memory, x: nat)
    requires WellFormed(c, spec) && WellFormed(c, core) && Explains(c, mem, core) && x < |mem|
    requires core.addr == spec.addr || !AnySet(spec.wmask)
    requires forall i: nat | i < Lanes(c) :: WriteLaneOk(c, spec, core, i)
    ensures After(c, mem, core)[x] == After(c, mem, spec)[x]
  {
    var o, s := LaneOf(c, core.addr, x), LaneOf(c, spec.addr, x);
    if o < Lanes(c) { assert WriteLaneOk(c, spec, core, o); }
    if s < Lanes(c) && !AnySet(spec.wmask) { assert !spec.wmask[s]; }
  }

  lemma EffectsAgree(c: Shape, spec: Access, core: Access)
    requires WellFormed(c, spec) && WellFormed(c, core)
    requires core.addr == spec.addr || !AnySet(spec.wmask)
    requires forall i: nat | i < Lanes(c) :: WriteLaneOk(c, spec, core, i)
    ensures SameEffect(c, spec, core)
  {
    forall mem: Memory | Explains(c, mem, core)
      ensures After(c, mem, core) == After(c, mem, spec)
    {
      forall x: nat | x < |mem| ensures After(c, mem, core)[x] == After(c, mem, spec)[x] {
        EffectAt(c, spec, core, mem, x);
      }
    }
  }

  /**
   Soundness of the memory assertions: for an instruction that neither faults nor traps, a
   passing core leaves the specified memory, including when it reads a whole word and writes
   it back with the stored bytes replaced.
   */
  lemma PassingCoreWritesAsSpecified(c: Shape, p: Platform, spec: Expected, core: Retired)
    requires WellFormed(c, spec.mem) && WellFormed(c, core.mem)
    requires Passes(c, p, spec, core) && !Faults(p, core.pc, spec.mem) && !spec.trap
    ensures SameEffect(c, spec.mem, core.mem)
  {
    EffectsAgree(c, spec.mem, core.mem);
  }

  // ----------------------------------------------------------------------------------
  // The assertions ask for no more than the effect
  // ----------------------------------------------------------------------------------

  /** A memory that explains the reads, with `other` in every byte that was not read. */
  function Explanation(c: Shape, core: Access, other: Byte): (m: Memory)
    requires WellFormed(c, core)
    ensures |m| == Space(c)
  {
    Written(c, seq(Space(c), x => other), core.addr, core.rmask, core.rdata)
  }

  lemma ExplanationExplains(c: Shape, core: Access, other: Byte)
    requires WellFormed(c, core)
    ensures Explains(c, Explanation(c, core, other), core)
  {
  }

  function Flipped(b: Byte): (r: Byte)
    ensures r != b
  {
    var r := b[0 := !b[0]];
    assert r[0] != b[0];
    r
  }

  /** What an access leaves at the address of one of its lanes. */
  lemma AfterAtLane(c: Shape, mem: Memory, a: Access, i: nat, x: nat)
    requires Fits(c) && WellFormed(c, a) && |mem| == Space(c) && i < Lanes(c)
    requires x == (a.addr + i) % Space(c)
    ensures After(c, mem, a)[x] == if a.wmask[i] then ByteOf(a.wdata, i) else mem[x]
  {
    Pow2Monotone(c.lanes, c.width);
    AddressOfLane(c, a.addr, i);
  }

  lemma ExplanationAtLane(c: Shape, core: Access, other: Byte, i: nat, x: nat)
    requires Fits(c) && WellFormed(c, core) && i < Lanes(c)
    requires x == (core.addr + i) % Space(c)
    ensures Explanation(c, core, other)[x] == if core.rmask[i] then ByteOf(core.rdata, i) else other
  {
    Pow2Monotone(c.lanes, c.width);
    AddressOfLane(c, core.addr, i);
  }

  /** The same for the specification, which may name another address if it writes nothing. */
  lemma SpecAtLane(c: Shape, mem: Memory, spec: Access, at: nat, i: nat, x: nat)
    requires Fits(c) && WellFormed(c, spec) && |mem| == Space(c) && i < Lanes(c)
    requires at == spec.addr || !AnySet(spec.wmask)
    requires x == (at + i) % Space(c)
    ensures After(c, mem, spec)[x] == if spec.wmask[i] then ByteOf(spec.wdata, i) else mem[x]
  {
    if at == spec.addr {
      AfterAtLane(c, mem, spec, i, x);
    } else {
      WritesNothing(c, spec, mem);
      assert !spec.wmask[i];
    }
  }

  /** A lane whose assertion fails, although the core claims every byte it has to write, shows in some memory. */
  lemma FailingLaneShows(c: Shape, spec: Access, core: Access, i: nat)
    requires Fits(c) && WellFormed(c, spec) && WellFormed(c, core) && i < Lanes(c)
    requires core.addr == spec.addr || !AnySet(spec.wmask)
    requires spec.wmask[i] ==> core.wmask[i]
    requires !WriteLaneOk(c, spec, core, i)
    ensures !SameEffect(c, spec, core)
  {
    var x, other := (core.addr + i) % Space(c), Flipped(ByteOf(core.wdata, i));
    LaneShowsAt(c, spec, core, i, x, other, Explanation(c, core, other));
    ExplanationExplains(c, core, other);
  }

  lemma LaneShowsAt(c: Shape, spec: Access, core: Access, i: nat, x: nat, other: Byte, mem: Memory)
    requires Fits(c) && WellFormed(c, spec) && WellFormed(c, core) && i < Lanes(c)
    requires core.addr == spec.addr || !AnySet(spec.wmask)
    requires spec.wmask[i] ==> core.wmask[i]
    requires !WriteLaneOk(c, spec, core, i)
    requires x == (core.addr + i) % Space(c) && other != ByteOf(core.wdata, i)
    requires mem == Explanation(c, core, other)
    ensures After(c, mem, core) != After(c, mem, spec)
  {
    ExplanationAtLane(c, core, other, i, x);
    AfterAtLane(c, mem, core, i, x);
    SpecAtLane(c, mem, spec, core.addr, i, x);
  }

  lemma WritesNothing(c: Shape, spec: Access, mem: Memory)
    requires WellFormed(c, spec) && |mem| == Space(c) && !AnySet(spec.wmask)
    ensures After(c, mem, spec) == mem
  {
  }

  /**
   Exactness: at the specified address the write assertions hold precisely when the core has
   the specified effect on every memory and claims every specified byte as written.  The
   second half is the one thing the checker asks beyond the effect: a store may not be
   dropped because the byte read is already the one to be written.
   */
  lemma WriteAssertionsAreExact(c: Shape, spec: Access, core: Access)
    requires Fits(c) && WellFormed(c, spec) && WellFormed(c, core)
    requires core.addr == spec.addr || !AnySet(spec.wmask)
    ensures (forall i: nat | i < Lanes(c) :: WriteLaneOk(c, spec, core, i))
       <==> SameEffect(c, spec, core) && forall i: nat | i < Lanes(c) && spec.wmask[i] :: core.wmask[i]
  {
    if forall i: nat | i < Lanes(c) :: WriteLaneOk(c, spec, core, i) {
      EffectsAgree(c, spec, core);
      forall i: nat | i < Lanes(c) && spec.wmask[i] ensures core.wmask[i] {
        assert WriteLaneOk(c, spec, core, i);
      }
    } else if forall i: nat | i < Lanes(c) && spec.wmask[i] :: core.wmask[i] {
      var i: nat :| i < Lanes(c) && !WriteLaneOk(c, spec, core, i);
      FailingLaneShows(c, spec, core, i);
    }
  }

  // ----------------------------------------------------------------------------------
  // The verdict
  // ----------------------------------------------------------------------------------

  /** Some byte is read or written. */
  ghost predicate Touches(c: Shape, a: Access)
    requires WellFormed(c, a)
  {
    exists i :: 0 <= i < Lanes(c) && (a.rmask[i] || a.wmask[i])
  }

  /** The effect of the core on memory is the specified one, and the specified bytes are reported. */
  ghost predicate MemoryAsSpecified(c: Shape, spec: Access, core: Access)
    requires WellFormed(c, spec) && WellFormed(c, core)
  {
    && (Touches(c, spec) ==> core.addr == spec.addr)
    && SameEffect(c, spec, core)
    && (forall i | 0 <= i < Lanes(c) && spec.wmask[i] :: core.wmask[i])
    && (forall i | 0 <= i < Lanes(c) && spec.rmask[i] :: core.rmask[i])
  }

  lemma MemoryVerdict(c: Shape, p: Platform, spec: Access, core: Access)
    requires Fits(c) && WellFormed(c, spec) && WellFormed(c, core)
    requires Touches(c, spec) ==> p.valid(spec.addr)
    ensures MemoryOk(c, p, spec, core) <==> MemoryAsSpecified(c, spec, core)
  {
    assert Touches(c, spec) <==> AnySet(spec.wmask) || AnySet(spec.rmask);
    if AnySet(spec.wmask) ==> core.addr == spec.addr {
      WriteAssertionsAreExact(c, spec, core);
      assert (forall i: nat | i < Lanes(c) :: ReadLaneOk(c, spec, core, i))
        <==> (forall i | 0 <= i < Lanes(c) && spec.rmask[i] :: core.rmask[i]) by {
        assert forall i: nat | i < Lanes(c) :: ReadLaneOk(c, spec, core, i) == (spec.rmask[i] ==> core.rmask[i]);
      }
    }
  }

  /** What is demanded of an instruction that cannot be fetched, or whose memory access is not possible. */
  ghost predicate FaultOutcome(c: Shape, core: Retired)
    requires WellFormed(c, core.mem)
  {
    core.trap && core.rdAddr == 0 && ToNat(core.rd) == 0 && forall i | 0 <= i < Lanes(c) :: !core.mem.wmask[i]
  }

  /** x0 reads as zero. */
  predicate ZeroReads(core: Retired) {
    (core.rs1Addr == 0 ==> ToNat(core.rs1) == 0) && (core.rs2Addr == 0 ==> ToNat(core.rs2) == 0)
  }

  /** The registers and the next pc are the specified ones. */
  predicate RegistersAsSpecified(p: Platform, spec: Expected, core: Retired) {
    && (spec.rs1Addr != 0 ==> core.rs1Addr == spec.rs1Addr)
    && (spec.rs2Addr != 0 ==> core.rs2Addr == spec.rs2Addr)
    && core.rdAddr == spec.rdAddr && core.rd == spec.rd
    && (core.nextPc == spec.nextPc || (!p.valid(core.nextPc) && !p.valid(spec.nextPc)))
  }

  /** The three kinds of fault. */
  lemma FaultsIff(c: Shape, p: Platform, pc: nat, spec: Access)
    requires WellFormed(c, spec)
    ensures Faults(p, pc, spec) <==>
              || !(p.valid(pc) && p.fetchable)
              || (Touches(c, spec) && !p.valid(spec.addr))
              || (exists i | 0 <= i < Lanes(c) :: spec.rmask[i] && !p.readable)
              || (exists i | 0 <= i < Lanes(c) :: spec.wmask[i] && !p.writable)
  {
    assert AnySet(spec.rmask) <==> exists i | 0 <= i < Lanes(c) :: spec.rmask[i];
    assert AnySet(spec.wmask) <==> exists i | 0 <= i < Lanes(c) :: spec.wmask[i];
    assert Touches(c, spec) <==> AnySet(spec.wmask) || AnySet(spec.rmask);
  }

  /**
   The whole verdict, for every specification and every core: after a fault the core must trap and
   change neither registers nor memory; otherwise it must trap exactly when that is specified, and
   if it is not, leave the specified registers, pc and memory.
   */
  lemma VerdictMeaning(c: Shape, p: Platform, spec: Expected, core: Retired)
    requires Fits(c) && WellFormed(c, spec.mem) && WellFormed(c, core.mem)
    ensures Passes(c, p, spec, core) <==>
              if Faults(p, core.pc, spec.mem) then FaultOutcome(c, core)
              else
                && ZeroReads(core)
                && (core.trap <==> spec.trap)
                && (!core.trap ==> RegistersAsSpecified(p, spec, core) && MemoryAsSpecified(c, spec.mem, core.mem))
  {
    ZeroIff(core.rs1);
    ZeroIff(core.rs2);
    ZeroIff(core.rd);
    if !Faults(p, core.pc, spec.mem) {
      FaultsIff(c, p, core.pc, spec.mem);
      MemoryVerdict(c, p, spec.mem, core.mem);
    }
  }

  // ----------------------------------------------------------------------------------
  // Loads and stores
  // ----------------------------------------------------------------------------------

  /** A load as the instruction models specify it; writes to x0 are specified as zero. */
  function LoadInsn(c: Shape, alignedMem: bool, rs1Addr: nat, rdAddr: nat, nextPc: nat, addr: nat, size: nat,
                    signed: bool, core: Retired): (e: Expected)
    requires Fits(c) && addr < Space(c) && size <= c.lanes && WellFormed(c, core.mem)
    ensures WellFormed(c, e.mem)
  {
    AlignDownFits(c, addr);
    var s := LoadSpec(c, alignedMem, addr, size, signed, core.mem.rdata);
    Expected(rs1Addr, 0, rdAddr, if rdAddr != 0 then s.rd else Fill(8 * Lanes(c), false), nextPc, s.mem, s.trap)
  }

  /** The operand of a store; x0 is zero. */
  function Operand(c: Shape, rs2Addr: nat, core: Retired): Word {
    if rs2Addr != 0 then core.rs2 else Fill(8 * Lanes(c), false)
  }

  function StoreInsn(c: Shape, alignedMem: bool, rs1Addr: nat, rs2Addr: nat, nextPc: nat, addr: nat, size: nat,
                     core: Retired): (e: Expected)
    requires Fits(c) && addr < Space(c) && size <= c.lanes && |core.rs2| == 8 * Lanes(c)
    ensures WellFormed(c, e.mem)
  {
    AlignDownFits(c, addr);
    var s := StoreSpec(c, alignedMem, addr, size, Operand(c, rs2Addr, core));
    Expected(rs1Addr, rs2Addr, 0, Fill(8 * Lanes(c), false), nextPc, s.mem, s.trap)
  }

  lemma NothingSet(n: nat)
    ensures !AnySet(Fill(n, false))
  {
  }

  /** The lane of the first byte is in the mask, aligned or not. */
  lemma SomeLane(c: Shape, size: nat, d: nat)
    requires Fits(c) && size <= c.lanes && d < Lanes(c)
    ensures AnySet(SizeMask(c, size)) && AnySet(Shl(SizeMask(c, size), d))
  {
    SizeMaskBits(c, size);
    assert SizeMask(c, size)[0];
    assert Shl(SizeMask(c, size), d)[d];
  }

  /** Fewer lanes read agree with the memory all the more. */
  lemma NarrowRead(c: Shape, mem: Memory, core: Access, mask: Word)
    requires WellFormed(c, core) && Explains(c, mem, core) && |mask| == Lanes(c)
    requires forall i: nat | i < Lanes(c) && mask[i] :: core.rmask[i]
    ensures ReadsFrom(c, mem, core.addr, mask, core.rdata)
  {
  }

  // ----------------------------------------------------------------------------------
  // The verdict on loads and stores, in terms of bytes
  // ----------------------------------------------------------------------------------

  /** The address that is specified for an access. */
  function AccessAddr(c: Shape, alignedMem: bool, addr: nat): nat {
    ModAtMost(addr, Lanes(c));
    if alignedMem then addr - addr % Lanes(c) else addr
  }

  /** Each of the `n` bytes from `addr` on is in the mask of the access at `at`. */
  ghost predicate Claims(c: Shape, at: nat, mask: Word, addr: nat, n: nat)
    requires |mask| == Lanes(c)
  {
    forall x: nat | x < Space(c) && LaneOf(c, addr, x) < n :: LaneOf(c, at, x) < Lanes(c) && mask[LaneOf(c, at, x)]
  }

  lemma ClaimsLanes(c: Shape, at: nat, mask: Word, claimed: Word, addr: nat, n: nat)
    requires Fits(c) && |mask| == |claimed| == Lanes(c)
    requires Selects(c, at, mask, addr, n)
    ensures Claims(c, at, claimed, addr, n) <==> forall i | 0 <= i < Lanes(c) && mask[i] :: claimed[i]
  {
    Pow2Monotone(c.lanes, c.width);
    if Claims(c, at, claimed, addr, n) {
      forall i: nat | i < Lanes(c) && mask[i] ensures claimed[i] {
        AddressOfLane(c, at, i);
        assert LaneOf(c, at, (at + i) % Space(c)) == i;
      }
    }
  }

  /** An access of at least one byte selects a lane. */
  lemma SelectsSome(c: Shape, at: nat, mask: Word, addr: nat, n: nat)
    requires |mask| == Lanes(c) && Selects(c, at, mask, addr, n) && n > 0
    ensures exists i :: 0 <= i < Lanes(c) && mask[i]
  {
    AddressOfLane(c, addr, 0);
    var x := (addr + 0) % Space(c);
    assert LaneOf(c, addr, x) < n;
    assert mask[LaneOf(c, at, x)];
  }

  /** The outcome of a load: the bytes at its address, extended, with memory left alone. */
  ghost predicate LoadOutcome(c: Shape, p: Platform, alignedMem: bool, rs1Addr: nat, rdAddr: nat, nextPc: nat,
                              addr: nat, size: nat, signed: bool, core: Retired)
    requires WellFormed(c, core.mem) && size <= c.lanes
  {
    && (rs1Addr != 0 ==> core.rs1Addr == rs1Addr) && core.rdAddr == rdAddr
    && (core.nextPc == nextPc || (!p.valid(core.nextPc) && !p.valid(nextPc)))
    && core.mem.addr == AccessAddr(c, alignedMem, addr)
    && Claims(c, core.mem.addr, core.mem.rmask, addr, Pow2(size))
    && forall mem: Memory | Explains(c, mem, core.mem) ::
         && core.rd == (if rdAddr != 0 then Loaded(c, mem, addr, size, signed) else Fill(8 * Lanes(c), false))
         && After(c, mem, core.mem) == mem
  }

  /** The outcome of a store: the bytes at its address are the low bytes of the operand, and nothing else changes. */
  ghost predicate StoreOutcome(c: Shape, p: Platform, alignedMem: bool, rs1Addr: nat, rs2Addr: nat, nextPc: nat,
                               addr: nat, size: nat, core: Retired)
    requires WellFormed(c, core.mem) && size <= c.lanes && |core.rs2| == 8 * Lanes(c)
  {
    && (rs1Addr != 0 ==> core.rs1Addr == rs1Addr) && (rs2Addr != 0 ==> core.rs2Addr == rs2Addr)
    && core.rdAddr == 0 && core.rd == Fill(8 * Lanes(c), false)
    && (core.nextPc == nextPc || (!p.valid(core.nextPc) && !p.valid(nextPc)))
    && core.mem.addr == AccessAddr(c, alignedMem, addr)
    && Claims(c, core.mem.addr, core.mem.wmask, addr, Pow2(size))
    && forall mem: Memory | Explains(c, mem, core.mem) ::
         After(c, mem, core.mem)
         == Stored(c, mem, addr, size, if rs2Addr != 0 then core.rs2 else Fill(8 * Lanes(c), false))
  }

  /** Which instructions fault, as loads and stores of any address. */
  lemma LoadFaults(c: Shape, p: Platform, alignedMem: bool, rs1Addr: nat, rdAddr: nat, nextPc: nat, addr: nat,
                   size: nat, signed: bool, core: Retired)
    requires Fits(c) && addr < Space(c) && size <= c.lanes && WellFormed(c, core.mem)
    ensures Faults(p, core.pc, LoadInsn(c, alignedMem, rs1Addr, rdAddr, nextPc, addr, size, signed, core).mem) <==>
              !(p.valid(core.pc) && p.fetchable && p.readable && p.valid(AccessAddr(c, alignedMem, addr)))
  {
    AlignDownFits(c, addr);
    NothingSet(Lanes(c));
    SomeLane(c, size, addr - AlignedAddr(c, addr));
  }

  lemma StoreFaults(c: Shape, p: Platform, alignedMem: bool, rs1Addr: nat, rs2Addr: nat, nextPc: nat, addr: nat,
                    size: nat, core: Retired)
    requires Fits(c) && addr < Space(c) && size <= c.lanes && |core.rs2| == 8 * Lanes(c)
    ensures Faults(p, core.pc, StoreInsn(c, alignedMem, rs1Addr, rs2Addr, nextPc, addr, size, core).mem) <==>
              !(p.valid(core.pc) && p.fetchable && p.writable && p.valid(AccessAddr(c, alignedMem, addr)))
  {
    AlignDownFits(c, addr);
    NothingSet(Lanes(c));
    SomeLane(c, size, addr - AlignedAddr(c, addr));
  }

  /**
   A load passes if and only if: it traps without effect when it cannot be fetched or read; it
   traps when its address is misaligned in the aligned model; and otherwise it does not trap and
   returns the bytes at its address, for every memory that the reported reads agree with.
   */
  lemma LoadVerdict(c: Shape, p: Platform, alignedMem: bool, rs1Addr: nat, rdAddr: nat, nextPc: nat, addr: nat,
                    size: nat, signed: bool, core: Retired)
    requires Fits(c) && addr < Space(c) && size <= c.lanes && WellFormed(c, core.mem)
    ensures Passes(c, p, LoadInsn(c, alignedMem, rs1Addr, rdAddr, nextPc, addr, size, signed, core), core) <==>
              if !(p.valid(core.pc) && p.fetchable && p.readable && p.valid(AccessAddr(c, alignedMem, addr)))
              then FaultOutcome(c, core)
              else
                && ZeroReads(core)
                && (core.trap <==> alignedMem && addr % Pow2(size) != 0)
                && (!core.trap ==>
                    LoadOutcome(c, p, alignedMem, rs1Addr, rdAddr, nextPc, addr, size, signed, core))
  {
    var spec := LoadInsn(c, alignedMem, rs1Addr, rdAddr, nextPc, addr, size, signed, core);
    VerdictMeaning(c, p, spec, core);
    LoadFaults(c, p, alignedMem, rs1Addr, rdAddr, nextPc, addr, size, signed, core);
    TrapsIffMisaligned(c, alignedMem, addr, size, signed, core.mem.rdata);
    if !spec.trap { LoadOutcomeIff(c, p, alignedMem, rs1Addr, rdAddr, nextPc, addr, size, signed, core); }
  }

  lemma LoadOutcomeIff(c: Shape, p: Platform, alignedMem: bool, rs1Addr: nat, rdAddr: nat, nextPc: nat, addr: nat,
                       size: nat, signed: bool, core: Retired)
    requires Fits(c) && addr < Space(c) && size <= c.lanes && WellFormed(c, core.mem)
    requires !LoadInsn(c, alignedMem, rs1Addr, rdAddr, nextPc, addr, size, signed, core).trap
    ensures var spec := LoadInsn(c, alignedMem, rs1Addr, rdAddr, nextPc, addr, size, signed, core);
            RegistersAsSpecified(p, spec, core) && MemoryAsSpecified(c, spec.mem, core.mem) <==>
              LoadOutcome(c, p, alignedMem, rs1Addr, rdAddr, nextPc, addr, size, signed, core)
  {
    var spec := LoadInsn(c, alignedMem, rs1Addr, rdAddr, nextPc, addr, size, signed, core);
    LoadFootprint(c, alignedMem, addr, size, signed, core.mem.rdata);
    SelectsSome(c, spec.mem.addr, spec.mem.rmask, addr, Pow2(size));
    if core.mem.addr == spec.mem.addr {
      ClaimsLanes(c, core.mem.addr, spec.mem.rmask, core.mem.rmask, addr, Pow2(size));
      if forall i | 0 <= i < Lanes(c) && spec.mem.rmask[i] :: core.mem.rmask[i] {
        ReadValue(c, alignedMem, addr, size, signed, core.mem);
        ExplanationExplains(c, core.mem, ByteOf(core.mem.rdata, 0));
        forall mem: Memory | |mem| == Space(c) ensures After(c, mem, spec.mem) == mem {
          WritesNothing(c, spec.mem, mem);
        }
      }
    }
  }

  /** What a load is specified to return, for every memory that the core can have read from. */
  lemma ReadValue(c: Shape, alignedMem: bool, addr: nat, size: nat, signed: bool, core: Access)
    requires Fits(c) && addr < Space(c) && size <= c.lanes && WellFormed(c, core)
    requires var spec := LoadSpec(c, alignedMem, addr, size, signed, core.rdata);
             !spec.trap && core.addr == spec.mem.addr && |spec.mem.rmask| == Lanes(c)
             && forall i | 0 <= i < Lanes(c) && spec.mem.rmask[i] :: core.rmask[i]
    ensures forall mem: Memory | Explains(c, mem, core) ::
              LoadSpec(c, alignedMem, addr, size, signed, core.rdata).rd == Loaded(c, mem, addr, size, signed)
  {
    forall mem: Memory | Explains(c, mem, core)
      ensures LoadSpec(c, alignedMem, addr, size, signed, core.rdata).rd == Loaded(c, mem, addr, size, signed)
    {
      NarrowRead(c, mem, core, LoadSpec(c, alignedMem, addr, size, signed, core.rdata).mem.rmask);
      LoadMeaning(c, alignedMem, mem, addr, size, signed, core.rdata);
    }
  }

  /**
   A store passes if and only if: it traps without effect when it cannot be fetched or written; it
   traps when its address is misaligned in the aligned model; and otherwise it does not trap and
   replaces the bytes at its address by the low bytes of rs2, whatever the memory was.
   */
  lemma StoreVerdict(c: Shape, p: Platform, alignedMem: bool, rs1Addr: nat, rs2Addr: nat, nextPc: nat, addr: nat,
                     size: nat, core: Retired)
    requires Fits(c) && addr < Space(c) && size <= c.lanes && WellFormed(c, core.mem) && |core.rs2| == 8 * Lanes(c)
    ensures Passes(c, p, StoreInsn(c, alignedMem, rs1Addr, rs2Addr, nextPc, addr, size, core), core) <==>
              if !(p.valid(core.pc) && p.fetchable && p.writable && p.valid(AccessAddr(c, alignedMem, addr)))
              then FaultOutcome(c, core)
              else
                && ZeroReads(core)
                && (core.trap <==> alignedMem && addr % Pow2(size) != 0)
                && (!core.trap ==> StoreOutcome(c, p, alignedMem, rs1Addr, rs2Addr, nextPc, addr, size, core))
  {
    var spec := StoreInsn(c, alignedMem, rs1Addr, rs2Addr, nextPc, addr, size, core);
    VerdictMeaning(c, p, spec, core);
    StoreFaults(c, p, alignedMem, rs1Addr, rs2Addr, nextPc, addr, size, core);
    TrapsIffMisaligned(c, alignedMem, addr, size, false, Operand(c, rs2Addr, core));
    if !spec.trap { StoreOutcomeIff(c, p, alignedMem, rs1Addr, rs2Addr, nextPc, addr, size, core); }
  }

  lemma StoreOutcomeIff(c: Shape, p: Platform, alignedMem: bool, rs1Addr: nat, rs2Addr: nat, nextPc: nat, addr: nat,
                        size: nat, core: Retired)
    requires Fits(c) && addr < Space(c) && size <= c.lanes && WellFormed(c, core.mem) && |core.rs2| == 8 * Lanes(c)
    requires !StoreInsn(c, alignedMem, rs1Addr, rs2Addr, nextPc, addr, size, core).trap
    ensures var spec := StoreInsn(c, alignedMem, rs1Addr, rs2Addr, nextPc, addr, size, core);
            RegistersAsSpecified(p, spec, core) && MemoryAsSpecified(c, spec.mem, core.mem) <==>
              StoreOutcome(c, p, alignedMem, rs1Addr, rs2Addr, nextPc, addr, size, core)
  {
    var spec := StoreInsn(c, alignedMem, rs1Addr, rs2Addr, nextPc, addr, size, core);
    var value := Operand(c, rs2Addr, core);
    StoreFootprint(c, alignedMem, addr, size, value);
    SelectsSome(c, spec.mem.addr, spec.mem.wmask, addr, Pow2(size));
    forall mem: Memory | |mem| == Space(c) ensures After(c, mem, spec.mem) == Stored(c, mem, addr, size, value) {
      StoreMeaning(c, alignedMem, mem, addr, size, value);
    }
    if core.mem.addr == spec.mem.addr {
      ClaimsLanes(c, core.mem.addr, spec.mem.wmask, core.mem.wmask, addr, Pow2(size));
    }
  }

  /**
   A load that passes the check returned the bytes at its address, extended, whatever memory
   the core read from, and left that memory alone.
   */
  lemma PassingLoad(c: Shape, p: Platform, alignedMem: bool, rs1Addr: nat, rdAddr: nat, nextPc: nat, addr: nat,
                    size: nat, signed: bool, core: Retired, mem: Memory)
    requires Fits(c) && addr < Space(c) && size <= c.lanes && WellFormed(c, core.mem)
    requires var spec := LoadInsn(c, alignedMem, rs1Addr, rdAddr, nextPc, addr, size, signed, core);
             && Passes(c, p, spec, core)
             && !Faults(p, core.pc, spec.mem) && !spec.trap
    requires Explains(c, mem, core.mem)
    ensures core.rdAddr == rdAddr
    ensures core.rd == if rdAddr != 0 then Loaded(c, mem, addr, size, signed) else Fill(8 * Lanes(c), false)
    ensures After(c, mem, core.mem) == mem
  {
    var spec := LoadInsn(c, alignedMem, rs1Addr, rdAddr, nextPc, addr, size, signed, core);
    VerdictMeaning(c, p, spec, core);
    LoadOutcomeIff(c, p, alignedMem, rs1Addr, rdAddr, nextPc, addr, size, signed, core);
  }

  /** A store that passes the check replaced the bytes at its address by the low bytes of rs2, and nothing else. */
  lemma PassingStore(c: Shape, p: Platform, alignedMem: bool, rs1Addr: nat, rs2Addr: nat, nextPc: nat, addr: nat,
                     size: nat, core: Retired, mem: Memory)
    requires Fits(c) && addr < Space(c) && size <= c.lanes && WellFormed(c, core.mem) && |core.rs2| == 8 * Lanes(c)
    requires var spec := StoreInsn(c, alignedMem, rs1Addr, rs2Addr, nextPc, addr, size, core);
             && Passes(c, p, spec, core)
             && !Faults(p, core.pc, spec.mem) && !spec.trap
    requires Explains(c, mem, core.mem)
    ensures core.rdAddr == 0 && (rs2Addr != 0 ==> core.rs2Addr == rs2Addr)
    ensures After(c, mem, core.mem)
         == Stored(c, mem, addr, size, if rs2Addr != 0 then core.rs2 else Fill(8 * Lanes(c), false))
  {
    var spec := StoreInsn(c, alignedMem, rs1Addr, rs2Addr, nextPc, addr, size, core);
    VerdictMeaning(c, p, spec, core);
    StoreOutcomeIff(c, p, alignedMem, rs1Addr, rs2Addr, nextPc, addr, size, core);
  }
}
