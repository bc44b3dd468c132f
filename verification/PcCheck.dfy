/**
 The pc checkers of checks/rvfi_pc_fwd_check.sv and checks/rvfi_pc_bwd_check.sv.

 The forward checker looks at an instruction and at its predecessor in program order if that
 retired before it; the backward checker looks at an instruction and at its successor if that
 retired before it.  Together they should cover every link of the program, in either
 retirement order.
 */
module PcCheck {
  import opened Interface
  import opened RvfiTrace

  /** Orders are 64 bits wide; the arithmetic on them wraps around. */

  function Before(n: nat): nat {
    (n + (WRAP - 1)) % WRAP
  }

  function Behind(n: nat): nat {
    (n + 1) % WRAP
  }

  datatype Expect = Expect(valid: bool, pc: nat)

  // ----------------------------------------------------------------------------------
  // The checkers
  // ----------------------------------------------------------------------------------

  function AbsorbFwd(s: Expect, ch: Channel, n: nat): Expect {
    if ch.valid && ch.insn.order == Before(n) then Expect(true, ch.insn.pcWrite) else s
  }

  /** `intr` is the interrupt bit of the checker's own channel in the same cycle. */
  function AbsorbBwd(s: Expect, ch: Channel, intr: bool, n: nat): Expect {
    if ch.valid && ch.insn.order == Behind(n) then Expect(!intr, ch.insn.pcRead) else s
  }

  function AbsorbAllFwd(s: Expect, chs: seq<Channel>, n: nat): Expect {
    if chs == [] then s else AbsorbFwd(AbsorbAllFwd(s, chs[..|chs| - 1], n), chs[|chs| - 1], n)
  }

  function AbsorbAllBwd(s: Expect, chs: seq<Channel>, intr: bool, n: nat): Expect {
    if chs == [] then s else AbsorbBwd(AbsorbAllBwd(s, chs[..|chs| - 1], intr, n), chs[|chs| - 1], intr, n)
  }

  class ForwardChecker {
    const insnOrder: nat
    const channel: nat
    const addrValid: nat -> bool
    var expectPc: nat
    var expectPcValid: bool

    ghost function Abstract(): Expect
      reads this
    {
      Expect(expectPcValid, expectPc)
    }

    constructor (insnOrder: nat, channel: nat, addrValid: nat -> bool, powerUp: nat)
      ensures this.insnOrder == insnOrder && this.channel == channel && this.addrValid == addrValid
      ensures Abstract() == Expect(false, powerUp)
    {
      this.insnOrder, this.channel, this.addrValid := insnOrder, channel, addrValid;
      expectPc, expectPcValid := powerUp, false;
    }

    method Clock(reset: bool, check: bool, chs: seq<Channel>) returns (assumed: bool, asserted: bool)
      requires channel < |chs|
      modifies this
      ensures Abstract() == if reset then Expect(false, old(expectPc))
                            else AbsorbAllFwd(old(Abstract()), if check then chs[..channel] else chs, insnOrder)
      ensures assumed == (reset || !check || (chs[channel].valid && chs[channel].insn.order == insnOrder))
      ensures asserted == (reset || !check || !expectPcValid || chs[channel].insn.intr
                           || AddrEq(addrValid, expectPc, chs[channel].insn.pcRead))
    {
      assumed, asserted := true, true;
      if reset {
        expectPcValid := false;
        return;
      }
      ghost var start := Abstract();
      for c := 0 to if check then channel else |chs|
        invariant Abstract() == AbsorbAllFwd(start, chs[..c], insnOrder)
      {
        assert chs[..c + 1][..c] == chs[..c];
        if chs[c].valid && chs[c].insn.order == Before(insnOrder) {
          expectPc := chs[c].insn.pcWrite;
          expectPcValid := true;
        }
      }
      assert chs[..|chs|] == chs;
      if check {
        assumed := chs[channel].valid && insnOrder == chs[channel].insn.order;
        if expectPcValid && !chs[channel].insn.intr {
          asserted := AddrEq(addrValid, expectPc, chs[channel].insn.pcRead);
        }
      }
    }
  }

  class BackwardChecker {
    const insnOrder: nat
    const channel: nat
    const addrValid: nat -> bool
    var expectPc: nat
    var expectPcValid: bool

    ghost function Abstract(): Expect
      reads this
    {
      Expect(expectPcValid, expectPc)
    }

    constructor (insnOrder: nat, channel: nat, addrValid: nat -> bool, powerUp: nat)
      ensures this.insnOrder == insnOrder && this.channel == channel && this.addrValid == addrValid
      ensures Abstract() == Expect(false, powerUp)
    {
      this.insnOrder, this.channel, this.addrValid := insnOrder, channel, addrValid;
      expectPc, expectPcValid := powerUp, false;
    }

    method Clock(reset: bool, check: bool, chs: seq<Channel>) returns (assumed: bool, asserted: bool)
      requires channel < |chs|
      modifies this
      ensures Abstract() == if reset then Expect(false, old(expectPc))
                            else AbsorbAllBwd(old(Abstract()), if check then chs[..channel] else chs,
                                              chs[channel].insn.intr, insnOrder)
      ensures assumed == (reset || !check || (chs[channel].valid && chs[channel].insn.order == insnOrder))
      ensures asserted == (reset || !check || !expectPcValid
                           || AddrEq(addrValid, expectPc, chs[channel].insn.pcWrite))
    {
      assumed, asserted := true, true;
      if reset {
        expectPcValid := false;
        return;
      }
      ghost var start := Abstract();
      for c := 0 to if check then channel else |chs|
        invariant Abstract() == AbsorbAllBwd(start, chs[..c], chs[channel].insn.intr, insnOrder)
      {
        assert chs[..c + 1][..c] == chs[..c];
        if chs[c].valid && chs[c].insn.order == Behind(insnOrder) {
          expectPc := chs[c].insn.pcRead;
          expectPcValid := !chs[channel].insn.intr;
        }
      }
      assert chs[..|chs|] == chs;
      if check {
        assumed := chs[channel].valid && insnOrder == chs[channel].insn.order;
        if expectPcValid {
          asserted := AddrEq(addrValid, expectPc, chs[channel].insn.pcWrite);
        }
      }
    }
  }

  // ----------------------------------------------------------------------------------
  // Whole traces
  // ----------------------------------------------------------------------------------

  /** Every cycle has `nret` channels. */
  predicate Uniform(trace: Trace, nret: nat) {
    forall t | 0 <= t < |trace| :: |trace[t]| == nret
  }

  ghost predicate Orders64(trace: Trace) {
    forall t: nat, c: nat | Retires(trace, t, c) :: At(trace, t, c).order < WRAP
  }

  function FwdAt(trace: Trace, nret: nat, n: nat, t: nat, c: nat): Expect
    requires Uniform(trace, nret) && t <= |trace| && c <= nret && (t == |trace| ==> c == 0)
    decreases t, c
  {
    if c > 0 then AbsorbFwd(FwdAt(trace, nret, n, t, c - 1), trace[t][c - 1], n)
    else if t > 0 then FwdAt(trace, nret, n, t - 1, nret)
    else Expect(false, 0)
  }

  function BwdAt(trace: Trace, nret: nat, idx: nat, n: nat, t: nat, c: nat): Expect
    requires Uniform(trace, nret) && idx < nret && t <= |trace| && c <= nret && (t == |trace| ==> c == 0)
    decreases t, c
  {
    if c > 0 then AbsorbBwd(BwdAt(trace, nret, idx, n, t, c - 1), trace[t][c - 1], trace[t][idx].insn.intr, n)
    else if t > 0 then BwdAt(trace, nret, idx, n, t - 1, nret)
    else Expect(false, 0)
  }

  predicate FwdCheckPasses(addrValid: nat -> bool, trace: Trace, nret: nat, n: nat, t: nat, c: nat)
    requires Uniform(trace, nret)
  {
    Retires(trace, t, c) && At(trace, t, c).order == n ==>
      var s := FwdAt(trace, nret, n, t, c);
      s.valid && !At(trace, t, c).intr ==> AddrEq(addrValid, s.pc, At(trace, t, c).pcRead)
  }

  predicate BwdCheckPasses(addrValid: nat -> bool, trace: Trace, nret: nat, n: nat, t: nat, c: nat)
    requires Uniform(trace, nret)
  {
    Retires(trace, t, c) && At(trace, t, c).order == n ==>
      var s := BwdAt(trace, nret, c, n, t, c);
      s.valid ==> AddrEq(addrValid, s.pc, At(trace, t, c).pcWrite)
  }

  /** Clocking whole cycles reaches the same expectations. */
  lemma {:induction false} ExpectOfClocks(trace: Trace, nret: nat, idx: nat, n: nat, t: nat, c: nat)
    requires Uniform(trace, nret) && idx < nret && t < |trace| && c <= nret
    ensures FwdAt(trace, nret, n, t, c) == AbsorbAllFwd(FwdAt(trace, nret, n, t, 0), trace[t][..c], n)
    ensures BwdAt(trace, nret, idx, n, t, c)
            == AbsorbAllBwd(BwdAt(trace, nret, idx, n, t, 0), trace[t][..c], trace[t][idx].insn.intr, n)
  {
    if c > 0 {
      ExpectOfClocks(trace, nret, idx, n, t, c - 1);
      assert trace[t][..c][..c - 1] == trace[t][..c - 1];
    }
  }

  /** Instruction (t', c') has order `n` and retires before (t, c). */
  predicate RetiredBefore(trace: Trace, n: nat, t: nat, c: nat, t': nat, c': nat) {
    Retires(trace, t', c') && Earlier(t', c', t, c) && At(trace, t', c').order == n
  }

  lemma {:induction false} FwdSource(trace: Trace, nret: nat, n: nat, t: nat, c: nat, t': nat, c': nat)
    requires Uniform(trace, nret) && t <= |trace| && c <= nret && (t == |trace| ==> c == 0)
    requires UniqueOrders(trace)
    requires RetiredBefore(trace, Before(n), t, c, t', c')
    ensures FwdAt(trace, nret, n, t, c) == Expect(true, At(trace, t', c').pcWrite)
    decreases t, c
  {
    if c > 0 {
      if trace[t][c - 1].valid && trace[t][c - 1].insn.order == Before(n) {
        assert Retires(trace, t, c - 1) && At(trace, t, c - 1).order == At(trace, t', c').order;
        assert !Earlier(t', c', t, c - 1);
      } else {
        FwdSource(trace, nret, n, t, c - 1, t', c');
      }
    } else {
      FwdSource(trace, nret, n, t - 1, nret, t', c');
    }
  }

  /** An expectation stems from an instruction that retired before. */
  lemma {:induction false} FwdWitness(trace: Trace, nret: nat, n: nat, t: nat, c: nat) returns (t': nat, c': nat)
    requires Uniform(trace, nret) && t <= |trace| && c <= nret && (t == |trace| ==> c == 0)
    requires FwdAt(trace, nret, n, t, c).valid
    ensures RetiredBefore(trace, Before(n), t, c, t', c')
    decreases t, c
  {
    if c > 0 && trace[t][c - 1].valid && trace[t][c - 1].insn.order == Before(n) {
      t', c' := t, c - 1;
    } else if c > 0 {
      t', c' := FwdWitness(trace, nret, n, t, c - 1);
    } else {
      t', c' := FwdWitness(trace, nret, n, t - 1, nret);
    }
  }

  lemma {:induction false} BwdSource(trace: Trace, nret: nat, idx: nat, n: nat, t: nat, c: nat, t': nat, c': nat)
    requires Uniform(trace, nret) && idx < nret && t <= |trace| && c <= nret && (t == |trace| ==> c == 0)
    requires UniqueOrders(trace)
    requires RetiredBefore(trace, Behind(n), t, c, t', c')
    ensures BwdAt(trace, nret, idx, n, t, c) == Expect(!trace[t'][idx].insn.intr, At(trace, t', c').pcRead)
    decreases t, c
  {
    if c > 0 {
      if trace[t][c - 1].valid && trace[t][c - 1].insn.order == Behind(n) {
        assert Retires(trace, t, c - 1) && At(trace, t, c - 1).order == At(trace, t', c').order;
        assert !Earlier(t', c', t, c - 1);
      } else {
        BwdSource(trace, nret, idx, n, t, c - 1, t', c');
      }
    } else {
      BwdSource(trace, nret, idx, n, t - 1, nret, t', c');
    }
  }

  /** An expectation stems from an instruction that retired before. */
  lemma {:induction false} BwdWitness(trace: Trace, nret: nat, idx: nat, n: nat, t: nat, c: nat) returns (t': nat, c': nat)
    requires Uniform(trace, nret) && idx < nret && t <= |trace| && c <= nret && (t == |trace| ==> c == 0)
    requires BwdAt(trace, nret, idx, n, t, c).valid
    ensures RetiredBefore(trace, Behind(n), t, c, t', c')
    decreases t, c
  {
    if c > 0 && trace[t][c - 1].valid && trace[t][c - 1].insn.order == Behind(n) {
      t', c' := t, c - 1;
    } else if c > 0 {
      t', c' := BwdWitness(trace, nret, idx, n, t, c - 1);
    } else {
      t', c' := BwdWitness(trace, nret, idx, n, t - 1, nret);
    }
  }

  // ----------------------------------------------------------------------------------
  // The links of the program
  // ----------------------------------------------------------------------------------

  /** (t', c') follows (t, c) in program order, and order 0 follows the last 64-bit order. */
  predicate Adjacent(trace: Trace, t: nat, c: nat, t': nat, c': nat) {
    && Retires(trace, t, c) && Retires(trace, t', c')
    && var n, n' := At(trace, t, c).order, At(trace, t', c').order;
       if n == WRAP - 1 then n' == 0 else n' == n + 1
  }

  /** The pc continues from (t, c) to (t', c'): the two addresses are the same number, or neither is valid. */
  predicate Continues(addrValid: nat -> bool, trace: Trace, t: nat, c: nat, t': nat, c': nat)
    requires Retires(trace, t, c) && Retires(trace, t', c')
  {
    var next, pc := At(trace, t, c).pcWrite, At(trace, t', c').pcRead;
    next == pc || (!addrValid(next) && !addrValid(pc))
  }

  /** Every link of the program whose second instruction is not an interrupt entry. */
  ghost predicate EveryLinkHolds(addrValid: nat -> bool, trace: Trace) {
    forall t: nat, c: nat, t': nat, c': nat | Adjacent(trace, t, c, t', c') ::
      At(trace, t', c').intr || Continues(addrValid, trace, t, c, t', c')
  }

  ghost predicate AllPcChecksPass(addrValid: nat -> bool, trace: Trace, nret: nat)
    requires Uniform(trace, nret)
  {
    && (forall n: nat, t: nat, c: nat :: FwdCheckPasses(addrValid, trace, nret, n, t, c))
    && (forall n: nat, t: nat, c: nat :: BwdCheckPasses(addrValid, trace, nret, n, t, c))
  }

  /** The forward checker at (t', c') decides the link from an instruction that retired earlier. */
  lemma FwdDecides(addrValid: nat -> bool, trace: Trace, nret: nat, t: nat, c: nat, t': nat, c': nat)
    requires Uniform(trace, nret) && UniqueOrders(trace) && Orders64(trace)
    requires Adjacent(trace, t, c, t', c') && Earlier(t, c, t', c')
    ensures FwdCheckPasses(addrValid, trace, nret, At(trace, t', c').order, t', c')
            <==> At(trace, t', c').intr || Continues(addrValid, trace, t, c, t', c')
  {
    var n := At(trace, t', c').order;
    assert Before(n) == At(trace, t, c).order;
    FwdSource(trace, nret, n, t', c', t, c);
  }

  /**
   The backward checker at (t, c) decides the link to an instruction that retired earlier, but it
   looks for the interrupt bit on its own channel.
   */
  lemma BwdDecides(addrValid: nat -> bool, trace: Trace, nret: nat, t: nat, c: nat, t': nat, c': nat)
    requires Uniform(trace, nret) && UniqueOrders(trace) && Orders64(trace)
    requires Adjacent(trace, t, c, t', c') && Earlier(t', c', t, c)
    ensures BwdCheckPasses(addrValid, trace, nret, At(trace, t, c).order, t, c)
            <==> trace[t'][c].insn.intr || Continues(addrValid, trace, t, c, t', c')
  {
    BwdSource(trace, nret, c, At(trace, t, c).order, t, c, t', c');
  }

  /** The verdict of the backward checker is right exactly when the two interrupt bits agree or the pc continues. */
  lemma BwdRightIff(addrValid: nat -> bool, trace: Trace, nret: nat, t: nat, c: nat, t': nat, c': nat)
    requires Uniform(trace, nret) && UniqueOrders(trace) && Orders64(trace)
    requires Adjacent(trace, t, c, t', c') && Earlier(t', c', t, c)
    ensures (BwdCheckPasses(addrValid, trace, nret, At(trace, t, c).order, t, c)
             <==> At(trace, t', c').intr || Continues(addrValid, trace, t, c, t', c'))
            <==> trace[t'][c].insn.intr == At(trace, t', c').intr || Continues(addrValid, trace, t, c, t', c')
  {
    BwdDecides(addrValid, trace, nret, t, c, t', c');
  }

  /**
   The links as the two checkers see them: when the second instruction retires first, the
   interrupt bit that excuses a break is the one on the channel of the first instruction.
   */
  ghost predicate LinksAsChecked(addrValid: nat -> bool, trace: Trace, nret: nat)
    requires Uniform(trace, nret)
  {
    forall t: nat, c: nat, t': nat, c': nat | Adjacent(trace, t, c, t', c') ::
      || Continues(addrValid, trace, t, c, t', c')
      || if Earlier(t, c, t', c') then At(trace, t', c').intr else trace[t'][c].insn.intr
  }

  lemma PassingSaysLinked(addrValid: nat -> bool, trace: Trace, nret: nat)
    requires Uniform(trace, nret) && UniqueOrders(trace) && Orders64(trace)
    requires AllPcChecksPass(addrValid, trace, nret)
    ensures LinksAsChecked(addrValid, trace, nret)
  {
    forall t: nat, c: nat, t': nat, c': nat | Adjacent(trace, t, c, t', c')
      ensures || Continues(addrValid, trace, t, c, t', c')
              || if Earlier(t, c, t', c') then At(trace, t', c').intr else trace[t'][c].insn.intr
    {
      assert t != t' || c != c';
      if Earlier(t, c, t', c') {
        FwdDecides(addrValid, trace, nret, t, c, t', c');
      } else {
        BwdDecides(addrValid, trace, nret, t, c, t', c');
      }
    }
  }

  lemma LinkedSaysPassing(addrValid: nat -> bool, trace: Trace, nret: nat)
    requires Uniform(trace, nret) && UniqueOrders(trace) && Orders64(trace)
    requires LinksAsChecked(addrValid, trace, nret)
    ensures AllPcChecksPass(addrValid, trace, nret)
  {
    forall n: nat, t: nat, c: nat
      ensures FwdCheckPasses(addrValid, trace, nret, n, t, c) && BwdCheckPasses(addrValid, trace, nret, n, t, c)
    {
      if Retires(trace, t, c) && At(trace, t, c).order == n {
        if FwdAt(trace, nret, n, t, c).valid {
          var t', c' := FwdWitness(trace, nret, n, t, c);
          assert Adjacent(trace, t', c', t, c);
          FwdDecides(addrValid, trace, nret, t', c', t, c);
        }
        if BwdAt(trace, nret, c, n, t, c).valid {
          var t', c' := BwdWitness(trace, nret, c, n, t, c);
          assert Adjacent(trace, t, c, t', c');
          BwdDecides(addrValid, trace, nret, t, c, t', c');
        }
      }
    }
  }

  /** What the two checkers together say, for any number of channels and all interrupt bits. */
  lemma PcChecksMeaning(addrValid: nat -> bool, trace: Trace, nret: nat)
    requires Uniform(trace, nret) && UniqueOrders(trace) && Orders64(trace)
    ensures AllPcChecksPass(addrValid, trace, nret) <==> LinksAsChecked(addrValid, trace, nret)
  {
    if AllPcChecksPass(addrValid, trace, nret) { PassingSaysLinked(addrValid, trace, nret); }
    if LinksAsChecked(addrValid, trace, nret) { LinkedSaysPassing(addrValid, trace, nret); }
  }

  /** Where an instruction retires before its predecessor, the predecessor's channel shows the same interrupt bit. */
  ghost predicate InterruptBitsVisible(trace: Trace, nret: nat)
    requires Uniform(trace, nret)
  {
    forall t: nat, c: nat, t': nat, c': nat | Adjacent(trace, t, c, t', c') && Earlier(t', c', t, c) ::
      trace[t'][c].insn.intr == At(trace, t', c').intr
  }

  /** Then the links checked are the links of the program. */
  lemma VisibleLinks(addrValid: nat -> bool, trace: Trace, nret: nat)
    requires Uniform(trace, nret) && InterruptBitsVisible(trace, nret)
    ensures LinksAsChecked(addrValid, trace, nret) <==> EveryLinkHolds(addrValid, trace)
  {
    forall t: nat, c: nat, t': nat, c': nat | Adjacent(trace, t, c, t', c')
      ensures (if Earlier(t, c, t', c') then At(trace, t', c').intr else trace[t'][c].insn.intr)
              == At(trace, t', c').intr
    {
      assert t != t' || c != c';
    }
  }

  /**
   The two checkers cover every link: with one channel they pass for every order and every cycle
   if and only if the pc continues over every retired adjacent pair whose second instruction is
   not an interrupt entry, in either retirement order.
   */
  lemma PcChecksCoverEveryLink(addrValid: nat -> bool, trace: Trace)
    requires Uniform(trace, 1) && UniqueOrders(trace) && Orders64(trace)
    ensures AllPcChecksPass(addrValid, trace, 1) <==> EveryLinkHolds(addrValid, trace)
  {
    PcChecksMeaning(addrValid, trace, 1);
    VisibleLinks(addrValid, trace, 1);
  }

  /** The pc of every instruction is where its predecessor sent it, as a number, or it is an interrupt entry. */
  ghost predicate PcFollows(trace: Trace) {
    forall t: nat, c: nat, t': nat, c': nat | Adjacent(trace, t, c, t', c') && !At(trace, t', c').intr ::
      At(trace, t, c).pcWrite == At(trace, t', c').pcRead
  }

  /** Where all addresses are valid, the two checkers of a one-channel core compare numbers. */
  lemma PcChecksCompareNumbers(addrValid: nat -> bool, trace: Trace)
    requires Uniform(trace, 1) && UniqueOrders(trace) && Orders64(trace)
    requires forall a: nat :: addrValid(a)
    ensures AllPcChecksPass(addrValid, trace, 1) <==> PcFollows(trace)
  {
    PcChecksCoverEveryLink(addrValid, trace);
    forall t: nat, c: nat, t': nat, c': nat | Adjacent(trace, t, c, t', c')
      ensures Continues(addrValid, trace, t, c, t', c') <==> At(trace, t, c).pcWrite == At(trace, t', c').pcRead
    {}
  }

  /** An interrupt entry on channel 0, then its predecessor on channel 1: the backward checker objects to a legal trace. */
  lemma WrongChannelInterrupt()
    ensures var entry := Insn(1, false, true, 0, 0, 0, 0, 0, 0, 100, 104);
            var before := Insn(0, false, false, 0, 0, 0, 0, 0, 0, 0, 4);
            var trace := [[Channel(true, entry), Channel(false, before)], [Channel(false, entry), Channel(true, before)]];
            && EveryLinkHolds(a => true, trace)
            && !BwdCheckPasses(a => true, trace, 2, 0, 1, 1)
  {
    var entry := Insn(1, false, true, 0, 0, 0, 0, 0, 0, 100, 104);
    var before := Insn(0, false, false, 0, 0, 0, 0, 0, 0, 0, 4);
    var trace := [[Channel(true, entry), Channel(false, before)], [Channel(false, entry), Channel(true, before)]];
    assert BwdAt(trace, 2, 1, 0, 0, 0) == Expect(false, 0);
    assert BwdAt(trace, 2, 1, 0, 0, 1) == Expect(true, 100);
    assert BwdAt(trace, 2, 1, 0, 0, 2) == Expect(true, 100);
    assert BwdAt(trace, 2, 1, 0, 1, 0) == Expect(true, 100);
    assert BwdAt(trace, 2, 1, 0, 1, 1) == Expect(true, 100);
  }
}
