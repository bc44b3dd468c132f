/**
 The register and causality checkers together, over whole traces: passing for every
 choice of order, register, channel and cycle makes the trace a sequential execution as
 far as registers are concerned.
 */
module RegTheorem {
  import opened Interface
  import opened RvfiTrace
  import opened RegCheck

  /** The register checker assumes nothing about the register it watches: x0 is one of the choices. */
  ghost predicate AllRegChecksPass(trace: Trace) {
    forall n: nat, r: Reg, t: nat, c: nat :: RegCheckPasses(trace, n, r, t, c)
  }

  ghost predicate AllCausalChecksPass(trace: Trace) {
    forall n: nat, r: Reg, t: nat, c: nat :: CausalCheckPasses(trace, n, r, t, c)
  }

  /** Causality: an instruction that names `r` as its destination retires before every later reader of `r`. */
  ghost predicate Causal(trace: Trace) {
    forall t: nat, c: nat, t': nat, c': nat |
      Retires(trace, t', c') && Retires(trace, t, c) && Earlier(t', c', t, c) ::
      var w := At(trace, t, c);
      w.rdAddr != 0 && Reads(At(trace, t', c'), w.rdAddr) ==> At(trace, t', c').order <= w.order
  }

  /** (tw, cw) is the last write of `r` before order `n` in program order, wherever it retires in the trace. */
  ghost predicate LatestWrite(trace: Trace, n: nat, r: Reg, tw: nat, cw: nat) {
    && Retires(trace, tw, cw) && Writes(At(trace, tw, cw), r) && At(trace, tw, cw).order < n
    && forall t: nat, c: nat | Retires(trace, t, c) && Writes(At(trace, t, c), r) && At(trace, t, c).order < n ::
         At(trace, t, c).order <= At(trace, tw, cw).order
  }

  /** (tl, cl) is the write of `r` below the order of (t, c) that retired last before it. */
  ghost predicate LastRetired(trace: Trace, t: nat, c: nat, r: Reg, tl: nat, cl: nat)
    requires Retires(trace, t, c)
  {
    && Candidate(trace, At(trace, t, c).order, r, t, c, tl, cl)
    && forall t': nat, c': nat | Candidate(trace, At(trace, t, c).order, r, t, c, t', c') :: !Earlier(tl, cl, t', c')
  }

  /** Every operand of the instruction that names `r` has this value. */
  predicate ReadsValue(i: Insn, r: Reg, value: nat) {
    (i.rs1Addr == r ==> i.rs1Data == value) && (i.rs2Addr == r ==> i.rs2Data == value)
  }

  /** Instruction (t, c) reads `r` as in program order; registers never written before are unconstrained. */
  ghost predicate ReadsLatest(trace: Trace, t: nat, c: nat, r: Reg)
    requires Retires(trace, t, c)
  {
    forall tw: nat, cw: nat | LatestWrite(trace, At(trace, t, c).order, r, tw, cw) ::
      ReadsValue(At(trace, t, c), r, At(trace, tw, cw).rdData)
  }

  /** Instruction (t, c) reads `r` as retirement order has it. */
  ghost predicate ReadsLastRetired(trace: Trace, t: nat, c: nat, r: Reg)
    requires Retires(trace, t, c)
  {
    forall tl: nat, cl: nat | LastRetired(trace, t, c, r, tl, cl) ::
      ReadsValue(At(trace, t, c), r, At(trace, tl, cl).rdData)
  }

  ghost predicate SequentialReads(trace: Trace) {
    forall t: nat, c: nat, r: Reg | Retires(trace, t, c) && r != 0 :: ReadsLatest(trace, t, c, r)
  }

  /** Reads of x0 agree with whatever retired last with x0 as its destination. */
  ghost predicate ZeroReadsAgree(trace: Trace) {
    forall t: nat, c: nat | Retires(trace, t, c) :: ReadsLastRetired(trace, t, c, 0)
  }

  /** Of the writes of `r` that instruction (t, c) can depend on, the one that retired last has the highest order. */
  ghost predicate LastIsLatest(trace: Trace, t: nat, c: nat, r: Reg)
    requires Retires(trace, t, c)
  {
    forall tl: nat, cl: nat, t': nat, c': nat |
      LastRetired(trace, t, c, r, tl, cl) && Candidate(trace, At(trace, t, c).order, r, t, c, t', c') ::
      At(trace, t', c').order <= At(trace, tl, cl).order
  }

  /** The same for every reader of a register other than x0. */
  ghost predicate ReadersSeeOrderedWrites(trace: Trace) {
    forall t: nat, c: nat, r: Reg | Retires(trace, t, c) && r != 0 && Reads(At(trace, t, c), r) ::
      LastIsLatest(trace, t, c, r)
  }

  /** Effective writes of the same register retire in program order. */
  ghost predicate WritesInOrder(trace: Trace) {
    forall t: nat, c: nat, t': nat, c': nat |
      Retires(trace, t, c) && Retires(trace, t', c') && Earlier(t, c, t', c') ::
      At(trace, t', c').rdAddr != 0
      && Writes(At(trace, t, c), At(trace, t', c').rdAddr) && Writes(At(trace, t', c'), At(trace, t', c').rdAddr)
      ==> At(trace, t, c).order < At(trace, t', c').order
  }

  // ----------------------------------------------------------------------------------
  // Causality
  // ----------------------------------------------------------------------------------

  lemma CausalChecksSayCausal(trace: Trace)
    requires AllCausalChecksPass(trace)
    ensures Causal(trace)
  {
    forall t: nat, c: nat, t': nat, c': nat |
      Retires(trace, t', c') && Retires(trace, t, c) && Earlier(t', c', t, c)
      ensures var w := At(trace, t, c);
              w.rdAddr != 0 && Reads(At(trace, t', c'), w.rdAddr) ==> At(trace, t', c').order <= w.order
    {
      var w := At(trace, t, c);
      if w.rdAddr != 0 {
        assert CausalCheckPasses(trace, w.order, w.rdAddr, t, c);
        FoundMeaning(trace, w.order, w.rdAddr, t, c);
      }
    }
  }

  lemma CausalSaysChecksPass(trace: Trace)
    requires Causal(trace)
    ensures AllCausalChecksPass(trace)
  {
    forall n: nat, r: Reg, t: nat, c: nat ensures CausalCheckPasses(trace, n, r, t, c) {
      if r != 0 && Retires(trace, t, c) && At(trace, t, c).rdAddr == r && At(trace, t, c).order == n {
        FoundMeaning(trace, n, r, t, c);
      }
    }
  }

  /** In a causal trace every smaller-order write of a register that an instruction reads has retired before it. */
  lemma WritersRetireFirst(trace: Trace, t: nat, c: nat, r: Reg, t': nat, c': nat)
    requires Causal(trace)
    requires Retires(trace, t, c) && Reads(At(trace, t, c), r) && r != 0
    requires Retires(trace, t', c') && Writes(At(trace, t', c'), r) && At(trace, t', c').order < At(trace, t, c).order
    ensures Candidate(trace, At(trace, t, c).order, r, t, c, t', c')
  {
    assert Earlier(t', c', t, c) || Earlier(t, c, t', c') || (t == t' && c == c');
  }

  // ----------------------------------------------------------------------------------
  // What the register checker compares with
  // ----------------------------------------------------------------------------------

  lemma LastRetiredIsUnique(trace: Trace, t: nat, c: nat, r: Reg, tl: nat, cl: nat, t': nat, c': nat)
    requires Retires(trace, t, c)
    requires LastRetired(trace, t, c, r, tl, cl) && LastRetired(trace, t, c, r, t', c')
    ensures t' == tl && c' == cl
  {
    assert !Earlier(tl, cl, t', c') && !Earlier(t', c', tl, cl);
  }

  /** For every trace, instruction and register: passing is reading the value of the write that retired last. */
  lemma RegCheckIffReadsLastRetired(trace: Trace, t: nat, c: nat, r: Reg)
    requires Retires(trace, t, c)
    ensures RegCheckPasses(trace, At(trace, t, c).order, r, t, c) <==> ReadsLastRetired(trace, t, c, r)
  {
    var n := At(trace, t, c).order;
    var tl, cl := ShadowSource(trace, n, r, t, c);
    if ShadowAt(trace, n, r, t, c).written {
      assert LastRetired(trace, t, c, r, tl, cl);
      forall t': nat, c': nat | LastRetired(trace, t, c, r, t', c') ensures t' == tl && c' == cl {
        LastRetiredIsUnique(trace, t, c, r, tl, cl, t', c');
      }
    } else {
      forall t': nat, c': nat ensures !LastRetired(trace, t, c, r, t', c') {
        assert !Candidate(trace, n, r, t, c, t', c');
      }
    }
  }

  /** Over every choice, x0 included, and without any assumption on the trace. */
  lemma AllRegChecksMeaning(trace: Trace)
    ensures AllRegChecksPass(trace) <==>
              forall t: nat, c: nat, r: Reg | Retires(trace, t, c) :: ReadsLastRetired(trace, t, c, r)
  {
    forall t: nat, c: nat, r: Reg | Retires(trace, t, c)
      ensures RegCheckPasses(trace, At(trace, t, c).order, r, t, c) <==> ReadsLastRetired(trace, t, c, r)
    {
      RegCheckIffReadsLastRetired(trace, t, c, r);
    }
    if forall t: nat, c: nat, r: Reg | Retires(trace, t, c) :: ReadsLastRetired(trace, t, c, r) {
      forall n: nat, r: Reg, t: nat, c: nat ensures RegCheckPasses(trace, n, r, t, c) {
        if Retires(trace, t, c) && At(trace, t, c).order == n {
          assert ReadsLastRetired(trace, t, c, r);
        }
      }
    }
  }

  // ----------------------------------------------------------------------------------
  // Retirement order against program order
  // ----------------------------------------------------------------------------------

  lemma LatestIsUnique(trace: Trace, n: nat, r: Reg, t: nat, c: nat, t': nat, c': nat)
    requires UniqueOrders(trace)
    requires LatestWrite(trace, n, r, t, c) && LatestWrite(trace, n, r, t', c')
    ensures t == t' && c == c'
  {
    assert At(trace, t, c).order == At(trace, t', c').order;
    assert !Earlier(t, c, t', c') && !Earlier(t', c', t, c);
  }

  /** Among finitely many candidates one has the highest order. */
  lemma {:induction false} HighestCandidate(trace: Trace, n: nat, r: Reg, t: nat, c: nat, t0: nat, c0: nat)
    returns (tw: nat, cw: nat)
    requires t <= |trace| && (t < |trace| ==> c <= |trace[t]|) && (t == |trace| ==> c == 0)
    requires Candidate(trace, n, r, t, c, t0, c0)
    ensures Candidate(trace, n, r, t, c, tw, cw)
    ensures forall t': nat, c': nat | Candidate(trace, n, r, t, c, t', c') ::
              At(trace, t', c').order <= At(trace, tw, cw).order
    decreases t, c
  {
    var t1, c1 := if c > 0 then t else t - 1, if c > 0 then c - 1 else |trace[t - 1]|;
    forall t': nat, c': nat | Candidate(trace, n, r, t, c, t', c')
      ensures (c > 0 && t' == t && c' == c - 1) || Candidate(trace, n, r, t1, c1, t', c')
    {}
    tw, cw := t0, c0;
    if Candidate(trace, n, r, t1, c1, t0, c0) {
      tw, cw := HighestCandidate(trace, n, r, t1, c1, t0, c0);
    } else if t', c' :| Candidate(trace, n, r, t1, c1, t', c') {
      tw, cw := HighestCandidate(trace, n, r, t1, c1, t', c');
    }
    if c > 0 && Candidate(trace, n, r, t, c, t, c - 1) && At(trace, t, c - 1).order > At(trace, tw, cw).order {
      tw, cw := t, c - 1;
    }
  }

  /** In a causal trace the candidates of a reader are all smaller-order writes, so the highest one is the latest. */
  lemma HighestIsLatest(trace: Trace, t: nat, c: nat, r: Reg, tw: nat, cw: nat)
    requires Causal(trace)
    requires Retires(trace, t, c) && Reads(At(trace, t, c), r) && r != 0
    requires Candidate(trace, At(trace, t, c).order, r, t, c, tw, cw)
    ensures LatestWrite(trace, At(trace, t, c).order, r, tw, cw) <==>
              forall t': nat, c': nat | Candidate(trace, At(trace, t, c).order, r, t, c, t', c') ::
                At(trace, t', c').order <= At(trace, tw, cw).order
  {
    var n := At(trace, t, c).order;
    forall t': nat, c': nat | Retires(trace, t', c') && Writes(At(trace, t', c'), r) && At(trace, t', c').order < n
      ensures Candidate(trace, n, r, t, c, t', c')
    {
      WritersRetireFirst(trace, t, c, r, t', c');
    }
  }

  /** A reader either depends on nothing, or has both a write that retired last and a latest write. */
  lemma BothWrites(trace: Trace, t: nat, c: nat, r: Reg) returns (some: bool, tl: nat, cl: nat, tw: nat, cw: nat)
    requires Causal(trace)
    requires Retires(trace, t, c) && Reads(At(trace, t, c), r) && r != 0
    ensures some ==> LastRetired(trace, t, c, r, tl, cl) && LatestWrite(trace, At(trace, t, c).order, r, tw, cw)
    ensures !some ==> forall t': nat, c': nat :: !LastRetired(trace, t, c, r, t', c')
    ensures !some ==> forall t': nat, c': nat :: !LatestWrite(trace, At(trace, t, c).order, r, t', c')
  {
    var n := At(trace, t, c).order;
    tl, cl := ShadowSource(trace, n, r, t, c);
    some, tw, cw := ShadowAt(trace, n, r, t, c).written, 0, 0;
    if some {
      tw, cw := HighestCandidate(trace, n, r, t, c, tl, cl);
      HighestIsLatest(trace, t, c, r, tw, cw);
    } else {
      forall t': nat, c': nat ensures !LatestWrite(trace, n, r, t', c') {
        if LatestWrite(trace, n, r, t', c') { WritersRetireFirst(trace, t, c, r, t', c'); }
      }
    }
  }

  /**
   Both verdicts on a reader of `r`, through either operand or both: the checker wants the value
   of the write that retired last, the program that of the latest write, and the two are the same
   instruction exactly when the former has the highest order of all candidates.
   */
  lemma VerdictAgainstProgramOrder(trace: Trace, t: nat, c: nat, r: Reg, tl: nat, cl: nat, tw: nat, cw: nat)
    requires UniqueOrders(trace) && Causal(trace)
    requires Retires(trace, t, c) && Reads(At(trace, t, c), r) && r != 0
    requires LastRetired(trace, t, c, r, tl, cl)
    requires LatestWrite(trace, At(trace, t, c).order, r, tw, cw)
    ensures RegCheckPasses(trace, At(trace, t, c).order, r, t, c)
       <==> ReadsValue(At(trace, t, c), r, At(trace, tl, cl).rdData)
    ensures ReadsLatest(trace, t, c, r) <==> ReadsValue(At(trace, t, c), r, At(trace, tw, cw).rdData)
    ensures (tl == tw && cl == cw) <==> LastIsLatest(trace, t, c, r)
  {
    var n := At(trace, t, c).order;
    RegCheckIffReadsLastRetired(trace, t, c, r);
    forall t': nat, c': nat | LastRetired(trace, t, c, r, t', c') ensures t' == tl && c' == cl {
      LastRetiredIsUnique(trace, t, c, r, tl, cl, t', c');
    }
    forall t': nat, c': nat | LatestWrite(trace, n, r, t', c') ensures t' == tw && c' == cw {
      LatestIsUnique(trace, n, r, tw, cw, t', c');
    }
    HighestIsLatest(trace, t, c, r, tl, cl);
  }

  /**
   The verdict on a reader is the one of program order exactly when the write that retired last
   and the latest write left the same value, or the reader has neither of the two values.
   */
  lemma VerdictRightIff(trace: Trace, t: nat, c: nat, r: Reg)
    requires UniqueOrders(trace) && Causal(trace)
    requires Retires(trace, t, c) && Reads(At(trace, t, c), r) && r != 0
    ensures (RegCheckPasses(trace, At(trace, t, c).order, r, t, c) <==> ReadsLatest(trace, t, c, r))
       <==> forall tl: nat, cl: nat, tw: nat, cw: nat |
              LastRetired(trace, t, c, r, tl, cl) && LatestWrite(trace, At(trace, t, c).order, r, tw, cw) ::
              var i, last, latest := At(trace, t, c), At(trace, tl, cl).rdData, At(trace, tw, cw).rdData;
              last == latest || (!ReadsValue(i, r, last) && !ReadsValue(i, r, latest))
  {
    var n := At(trace, t, c).order;
    var some, tl, cl, tw, cw := BothWrites(trace, t, c, r);
    if some {
      VerdictAgainstProgramOrder(trace, t, c, r, tl, cl, tw, cw);
      forall t': nat, c': nat | LastRetired(trace, t, c, r, t', c') ensures t' == tl && c' == cl {
        LastRetiredIsUnique(trace, t, c, r, tl, cl, t', c');
      }
      forall t': nat, c': nat | LatestWrite(trace, n, r, t', c') ensures t' == tw && c' == cw {
        LatestIsUnique(trace, n, r, tw, cw, t', c');
      }
    } else {
      RegCheckIffReadsLastRetired(trace, t, c, r);
    }
  }

  /** When the write that retired last is the latest one, the check and sequential reading are the same. */
  lemma RegCheckIffReadsLatest(trace: Trace, t: nat, c: nat, r: Reg)
    requires UniqueOrders(trace) && Causal(trace)
    requires Retires(trace, t, c) && r != 0
    requires Reads(At(trace, t, c), r) ==> LastIsLatest(trace, t, c, r)
    ensures RegCheckPasses(trace, At(trace, t, c).order, r, t, c) <==> ReadsLatest(trace, t, c, r)
  {
    if Reads(At(trace, t, c), r) {
      var some, tl, cl, tw, cw := BothWrites(trace, t, c, r);
      if some {
        VerdictAgainstProgramOrder(trace, t, c, r, tl, cl, tw, cw);
      } else {
        RegCheckIffReadsLastRetired(trace, t, c, r);
      }
    }
  }

  /** Writes that retire in program order are one way to meet the condition. */
  lemma OrderedWritesSuffice(trace: Trace)
    requires WritesInOrder(trace)
    ensures ReadersSeeOrderedWrites(trace)
  {
    forall t: nat, c: nat, r: Reg | Retires(trace, t, c) && r != 0 && Reads(At(trace, t, c), r)
      ensures LastIsLatest(trace, t, c, r)
    {
      forall tl: nat, cl: nat, t': nat, c': nat |
        LastRetired(trace, t, c, r, tl, cl) && Candidate(trace, At(trace, t, c).order, r, t, c, t', c')
        ensures At(trace, t', c').order <= At(trace, tl, cl).order
      {
        assert !Earlier(tl, cl, t', c');
        assert Earlier(t', c', tl, cl) || (t' == tl && c' == cl);
      }
    }
  }

  /**
   The register checks generalise: when no order is used twice and every reader's last retired
   write is its latest, the two checkers pass for every choice if and only if writes retire
   before the reads that depend on them, every instruction reads the latest smaller-order write
   of its registers, even if readers retire out of order or several per cycle, and reads of x0
   agree with what the core reports as written to it.
   */
  lemma RegisterChecksMeaning(trace: Trace)
    requires UniqueOrders(trace) && ReadersSeeOrderedWrites(trace)
    ensures AllRegChecksPass(trace) && AllCausalChecksPass(trace)
       <==> SequentialReads(trace) && Causal(trace) && ZeroReadsAgree(trace)
  {
    AllRegChecksMeaning(trace);
    if AllCausalChecksPass(trace) { CausalChecksSayCausal(trace); }
    if Causal(trace) {
      CausalSaysChecksPass(trace);
      forall t: nat, c: nat, r: Reg | Retires(trace, t, c) && r != 0
        ensures ReadsLastRetired(trace, t, c, r) <==> ReadsLatest(trace, t, c, r)
      {
        RegCheckIffReadsLastRetired(trace, t, c, r);
        RegCheckIffReadsLatest(trace, t, c, r);
      }
    }
  }

  // ----------------------------------------------------------------------------------
  // The choice of x0
  // ----------------------------------------------------------------------------------

  /** What the instruction checks ask of x0: it reads as zero and is reported as written with zero. */
  ghost predicate ZeroIsZero(trace: Trace) {
    forall t: nat, c: nat | Retires(trace, t, c) ::
      ReadsValue(At(trace, t, c), 0, 0) && (Writes(At(trace, t, c), 0) ==> At(trace, t, c).rdData == 0)
  }

  lemma ZeroRegisterPasses(trace: Trace)
    requires ZeroIsZero(trace)
    ensures ZeroReadsAgree(trace)
  {
    forall t: nat, c: nat | Retires(trace, t, c) ensures ReadsLastRetired(trace, t, c, 0) {
      forall tl: nat, cl: nat | LastRetired(trace, t, c, 0, tl, cl)
        ensures ReadsValue(At(trace, t, c), 0, At(trace, tl, cl).rdData)
      {
        assert Retires(trace, tl, cl);
      }
    }
  }

  /** Order 0 reports a write of 5 to x0, order 1 reads x0 as zero. */
  function ZeroWritten(): Trace {
    [[Channel(true, Insn(0, false, false, 1, 0, 1, 0, 0, 5, 0, 0))],
     [Channel(true, Insn(1, false, false, 0, 0, 1, 0, 1, 0, 0, 0))]]
  }

  /** A sequential, causal trace that the register checker rejects for the choice of x0. */
  lemma ZeroRegisterRejected()
    ensures UniqueOrders(ZeroWritten()) && WritesInOrder(ZeroWritten()) && Causal(ZeroWritten())
    ensures SequentialReads(ZeroWritten())
    ensures !RegCheckPasses(ZeroWritten(), 1, 0, 1, 0)
  {
    var trace := ZeroWritten();
    assert ShadowAt(trace, 1, 0, 0, 0) == Shadow(false, 0);
    assert ShadowAt(trace, 1, 0, 0, 1) == Shadow(true, 5);
    assert ShadowAt(trace, 1, 0, 1, 0) == ShadowAt(trace, 1, 0, 0, 1);
  }

  // ----------------------------------------------------------------------------------
  // Writes out of order
  // ----------------------------------------------------------------------------------

  /** Orders 1 and 0 write x1, in this retirement order; order 2 reads x1 with value `data`. */
  function OutOfOrderWrites(data: nat): Trace {
    [[Channel(true, Insn(1, false, false, 0, 0, 0, 0, 1, 20, 0, 0))],
     [Channel(true, Insn(0, false, false, 0, 0, 0, 0, 1, 10, 0, 0))],
     [Channel(true, Insn(2, false, false, 1, data, 0, 0, 0, 0, 0, 0))]]
  }

  /** The sequential value 20 is rejected and the stale value 10 accepted, although the trace is causal. */
  lemma OutOfOrderWritesMisjudged()
    ensures !RegCheckPasses(OutOfOrderWrites(20), 2, 1, 2, 0)
    ensures RegCheckPasses(OutOfOrderWrites(10), 2, 1, 2, 0)
    ensures LatestWrite(OutOfOrderWrites(20), 2, 1, 0, 0) && At(OutOfOrderWrites(20), 0, 0).rdData == 20
    ensures Causal(OutOfOrderWrites(20)) && Causal(OutOfOrderWrites(10))
    ensures UniqueOrders(OutOfOrderWrites(20)) && UniqueOrders(OutOfOrderWrites(10))
  {
    MisjudgedShadow(10);
    MisjudgedShadow(20);
  }

  lemma MisjudgedShadow(data: nat)
    ensures ShadowAt(OutOfOrderWrites(data), 2, 1, 2, 0) == Shadow(true, 10)
  {
    var trace := OutOfOrderWrites(data);
    assert ShadowAt(trace, 2, 1, 0, 0) == Shadow(false, 0);
    assert ShadowAt(trace, 2, 1, 0, 1) == Shadow(true, 20);
    assert ShadowAt(trace, 2, 1, 1, 0) == ShadowAt(trace, 2, 1, 0, 1);
    assert ShadowAt(trace, 2, 1, 1, 1) == Shadow(true, 10);
    assert ShadowAt(trace, 2, 1, 2, 0) == ShadowAt(trace, 2, 1, 1, 1);
  }
}
