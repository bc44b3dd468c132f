/**
 The register and causality checkers of checks/rvfi_reg_check.sv and
 checks/rvfi_causal_check.sv.

 Each checker watches one arbitrary order, one arbitrary register and one arbitrary cycle;
 `check` is high in exactly that cycle, for one fixed channel.  The lemmas say what it means
 for a whole trace that the two checkers pass for every choice.
 */
module RegCheck {
  import opened Interface
  import opened RvfiTrace

  datatype Shadow = Shadow(written: bool, value: nat)

  // ----------------------------------------------------------------------------------
  // The register checker
  // ----------------------------------------------------------------------------------

  /** The write of one channel, as the checker for order `n` and register `r` sees it. */
  function Absorb(s: Shadow, ch: Channel, n: nat, r: Reg): Shadow {
    if ch.valid && !ch.insn.trap && ch.insn.order < n && r == ch.insn.rdAddr then Shadow(true, ch.insn.rdData) else s
  }

  function AbsorbAll(s: Shadow, chs: seq<Channel>, n: nat, r: Reg): Shadow {
    if chs == [] then s else Absorb(AbsorbAll(s, chs[..|chs| - 1], n, r), chs[|chs| - 1], n, r)
  }

  /** The two assertions about instruction `i`. */
  predicate ShadowAgrees(s: Shadow, r: Reg, i: Insn) {
    && (s.written && r == i.rs1Addr ==> s.value == i.rs1Data)
    && (s.written && r == i.rs2Addr ==> s.value == i.rs2Data)
  }

  class RegisterChecker {
    const insnOrder: nat
    const registerIndex: Reg
    const channel: nat
    var registerShadow: nat
    var registerWritten: bool

    ghost function Abstract(): Shadow
      reads this
    {
      Shadow(registerWritten, registerShadow)
    }

    constructor (insnOrder: nat, registerIndex: Reg, channel: nat)
      ensures this.insnOrder == insnOrder && this.registerIndex == registerIndex && this.channel == channel
      ensures Abstract() == Shadow(false, 0)
    {
      this.insnOrder, this.registerIndex, this.channel := insnOrder, registerIndex, channel;
      registerShadow, registerWritten := 0, false;
    }

    /** One clock; `assumed` and `asserted` are the conjunctions of what is assumed and asserted in it. */
    method Clock(reset: bool, check: bool, chs: seq<Channel>) returns (assumed: bool, asserted: bool)
      requires channel < |chs|
      modifies this
      ensures Abstract() == if reset then Shadow(false, 0)
                            else AbsorbAll(old(Abstract()), if check then chs[..channel] else chs, insnOrder, registerIndex)
      ensures assumed == (reset || !check || (chs[channel].valid && chs[channel].insn.order == insnOrder))
      ensures asserted == (reset || !check || ShadowAgrees(Abstract(), registerIndex, chs[channel].insn))
    {
      assumed, asserted := true, true;
      if reset {
        registerShadow, registerWritten := 0, false;
        return;
      }
      ghost var start := Abstract();
      var bound := if check then channel else |chs|;
      for c := 0 to bound
        invariant Abstract() == AbsorbAll(start, chs[..c], insnOrder, registerIndex)
      {
        assert chs[..c + 1][..c] == chs[..c];
        if chs[c].valid && !chs[c].insn.trap && chs[c].insn.order < insnOrder && registerIndex == chs[c].insn.rdAddr {
          registerShadow := chs[c].insn.rdData;
          registerWritten := true;
        }
      }
      assert chs[..|chs|] == chs;
      if check {
        var i := chs[channel].insn;
        assumed := chs[channel].valid && insnOrder == i.order;
        if registerWritten && registerIndex == i.rs1Addr {
          asserted := registerShadow == i.rs1Data;
        }
        if registerWritten && registerIndex == i.rs2Addr {
          asserted := asserted && registerShadow == i.rs2Data;
        }
      }
    }
  }

  /** The shadow when the checker looks at channel `c` of cycle `t`. */
  function ShadowAt(trace: Trace, n: nat, r: Reg, t: nat, c: nat): Shadow
    requires t <= |trace| && (t < |trace| ==> c <= |trace[t]|) && (t == |trace| ==> c == 0)
    decreases t, c
  {
    if c > 0 then Absorb(ShadowAt(trace, n, r, t, c - 1), trace[t][c - 1], n, r)
    else if t > 0 then ShadowAt(trace, n, r, t - 1, |trace[t - 1]|)
    else Shadow(false, 0)
  }

  /** Clocking the cycles one after the other reaches the same shadow. */
  lemma {:induction false} ShadowOfClocks(trace: Trace, n: nat, r: Reg, t: nat, c: nat)
    requires t < |trace| && c <= |trace[t]|
    ensures ShadowAt(trace, n, r, t, c) == AbsorbAll(ShadowAt(trace, n, r, t, 0), trace[t][..c], n, r)
  {
    if c > 0 {
      ShadowOfClocks(trace, n, r, t, c - 1);
      assert trace[t][..c][..c - 1] == trace[t][..c - 1];
    }
  }

  /** The checker for (n, r) with `check` high in cycle `t`, for channel `c`. */
  predicate RegCheckPasses(trace: Trace, n: nat, r: Reg, t: nat, c: nat) {
    Retires(trace, t, c) && At(trace, t, c).order == n ==>
      ShadowAgrees(ShadowAt(trace, n, r, t, c), r, At(trace, t, c))
  }

  // ----------------------------------------------------------------------------------
  // The causality checker
  // ----------------------------------------------------------------------------------

  predicate NonCausal(ch: Channel, n: nat, r: Reg) {
    ch.valid && ch.insn.order > n && (r == ch.insn.rs1Addr || r == ch.insn.rs2Addr)
  }

  class CausalChecker {
    const insnOrder: nat
    const registerIndex: Reg
    const channel: nat
    var foundNonCausal: bool

    constructor (insnOrder: nat, registerIndex: Reg, channel: nat)
      ensures this.insnOrder == insnOrder && this.registerIndex == registerIndex && this.channel == channel
      ensures !foundNonCausal
    {
      this.insnOrder, this.registerIndex, this.channel := insnOrder, registerIndex, channel;
      foundNonCausal := false;
    }

    method Clock(reset: bool, check: bool, chs: seq<Channel>) returns (assumed: bool, asserted: bool)
      requires channel < |chs|
      modifies this
      ensures foundNonCausal ==
              (!reset && (old(foundNonCausal)
                          || exists c | 0 <= c < (if check then channel else |chs|) ::
                               NonCausal(chs[c], insnOrder, registerIndex)))
      ensures assumed == (reset || !check || (registerIndex != 0 && chs[channel].valid
                                              && registerIndex == chs[channel].insn.rdAddr
                                              && insnOrder == chs[channel].insn.order))
      ensures asserted == (reset || !check || !foundNonCausal)
    {
      assumed, asserted := true, true;
      if reset {
        foundNonCausal := false;
        return;
      }
      var bound := if check then channel else |chs|;
      for c := 0 to bound
        invariant foundNonCausal ==
                  (old(foundNonCausal) || exists k | 0 <= k < c :: NonCausal(chs[k], insnOrder, registerIndex))
      {
        if chs[c].valid && chs[c].insn.order > insnOrder
           && (registerIndex == chs[c].insn.rs1Addr || registerIndex == chs[c].insn.rs2Addr) {
          assert NonCausal(chs[c], insnOrder, registerIndex);
          foundNonCausal := true;
        }
      }
      if check {
        var i := chs[channel].insn;
        assumed := registerIndex != 0 && chs[channel].valid && registerIndex == i.rdAddr && insnOrder == i.order;
        asserted := !foundNonCausal;
      }
    }
  }

  function FoundAt(trace: Trace, n: nat, r: Reg, t: nat, c: nat): bool
    requires t <= |trace| && (t < |trace| ==> c <= |trace[t]|) && (t == |trace| ==> c == 0)
    decreases t, c
  {
    if c > 0 then FoundAt(trace, n, r, t, c - 1) || NonCausal(trace[t][c - 1], n, r)
    else if t > 0 then FoundAt(trace, n, r, t - 1, |trace[t - 1]|)
    else false
  }

  predicate CausalCheckPasses(trace: Trace, n: nat, r: Reg, t: nat, c: nat) {
    r != 0 && Retires(trace, t, c) && At(trace, t, c).rdAddr == r && At(trace, t, c).order == n ==>
      !FoundAt(trace, n, r, t, c)
  }

  // ----------------------------------------------------------------------------------
  // What the state of the checkers means
  // ----------------------------------------------------------------------------------

  /** (t', c') retires a write of `r` with an order below `n`, before (t, c). */
  predicate Candidate(trace: Trace, n: nat, r: Reg, t: nat, c: nat, t': nat, c': nat) {
    Retires(trace, t', c') && Earlier(t', c', t, c) && Writes(At(trace, t', c'), r) && At(trace, t', c').order < n
  }

  /** The shadow holds the candidate that retired last. */
  lemma {:induction false} ShadowSource(trace: Trace, n: nat, r: Reg, t: nat, c: nat) returns (tw: nat, cw: nat)
    requires t <= |trace| && (t < |trace| ==> c <= |trace[t]|) && (t == |trace| ==> c == 0)
    ensures ShadowAt(trace, n, r, t, c).written ==>
              && Candidate(trace, n, r, t, c, tw, cw)
              && ShadowAt(trace, n, r, t, c).value == At(trace, tw, cw).rdData
              && forall t': nat, c': nat | Candidate(trace, n, r, t, c, t', c') :: !Earlier(tw, cw, t', c')
    ensures !ShadowAt(trace, n, r, t, c).written ==> forall t': nat, c': nat :: !Candidate(trace, n, r, t, c, t', c')
    decreases t, c
  {
    tw, cw := 0, 0;
    if c > 0 {
      tw, cw := ShadowSource(trace, n, r, t, c - 1);
      var ch := trace[t][c - 1];
      forall t': nat, c': nat | Candidate(trace, n, r, t, c, t', c')
        ensures (t' == t && c' == c - 1) || Candidate(trace, n, r, t, c - 1, t', c')
      {}
      if ch.valid && Writes(ch.insn, r) && ch.insn.order < n {
        tw, cw := t, c - 1;
      }
    } else if t > 0 {
      tw, cw := ShadowSource(trace, n, r, t - 1, |trace[t - 1]|);
      forall t': nat, c': nat | Candidate(trace, n, r, t, c, t', c')
        ensures Candidate(trace, n, r, t - 1, |trace[t - 1]|, t', c')
      {}
    }
  }

  lemma {:induction false} FoundMeaning(trace: Trace, n: nat, r: Reg, t: nat, c: nat)
    requires t <= |trace| && (t < |trace| ==> c <= |trace[t]|) && (t == |trace| ==> c == 0)
    ensures FoundAt(trace, n, r, t, c) <==>
              exists t': nat, c': nat :: Retires(trace, t', c') && Earlier(t', c', t, c) && NonCausal(trace[t'][c'], n, r)
    decreases t, c
  {
    if c > 0 {
      FoundMeaning(trace, n, r, t, c - 1);
      if NonCausal(trace[t][c - 1], n, r) {
        assert Retires(trace, t, c - 1) && Earlier(t, c - 1, t, c);
      }
      forall t': nat, c': nat | Retires(trace, t', c') && Earlier(t', c', t, c)
        ensures Earlier(t', c', t, c - 1) || (t' == t && c' == c - 1)
      {}
    } else if t > 0 {
      FoundMeaning(trace, n, r, t - 1, |trace[t - 1]|);
      forall t': nat, c': nat | Retires(trace, t', c')
        ensures Earlier(t', c', t, c) <==> Earlier(t', c', t - 1, |trace[t - 1]|)
      {}
    }
  }

  /** The trace with the writes of trapping instructions replaced by writes to x0. */
  function WithoutTrappedWrites(trace: Trace): (r: Trace)
    ensures |r| == |trace| && forall t | 0 <= t < |trace| :: |r[t]| == |trace[t]|
  {
    seq(|trace|, t requires 0 <= t < |trace| =>
      seq(|trace[t]|, c requires 0 <= c < |trace[t]| => WithoutTrappedWrite(trace[t][c])))
  }

  function WithoutTrappedWrite(ch: Channel): Channel {
    if ch.insn.trap then ch.(insn := ch.insn.(rdAddr := 0, rdData := 0)) else ch
  }

  /** What a trapping instruction reports as written does not matter. */
  lemma {:induction false} TrapsWriteNothing(trace: Trace, n: nat, r: Reg, t: nat, c: nat)
    requires t <= |trace| && (t < |trace| ==> c <= |trace[t]|) && (t == |trace| ==> c == 0)
    requires r != 0
    ensures ShadowAt(WithoutTrappedWrites(trace), n, r, t, c) == ShadowAt(trace, n, r, t, c)
    ensures RegCheckPasses(WithoutTrappedWrites(trace), n, r, t, c) <==> RegCheckPasses(trace, n, r, t, c)
    decreases t, c
  {
    if c > 0 {
      TrapsWriteNothing(trace, n, r, t, c - 1);
    } else if t > 0 {
      TrapsWriteNothing(trace, n, r, t - 1, |trace[t - 1]|);
    }
  }
}
