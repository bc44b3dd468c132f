/**
 What the single output of the monitor means: which streams of packets keep `errcode` at
 zero, for every number of channels and whatever arrives.
 */
module MonitorRuns {
  import opened Options
  import opened Rob
  import opened RobKept
  import opened RobOrder
  import opened Shadow
  import opened ShadowPc
  import opened Monitor

  ghost predicate AllZero(codes: seq<nat>) {
    forall i | 0 <= i < |codes| :: codes[i] == 0
  }

  /** The register comparisons report nothing during the whole run. */
  ghost predicate RegistersSilent(m: Setup, run: seq<Input>)
    requires m.Ok() && Driven(m.channels, run)
  {
    AllZero(MachineAfter(m, run).registerCodes) && (run != [] ==> RegistersSilent(m, run[..|run| - 1]))
  }

  /** The pc comparisons report nothing during the whole run. */
  ghost predicate PcSilent(m: Setup, run: seq<Input>)
    requires m.Ok() && Driven(m.channels, run)
  {
    AllZero(MachineAfter(m, run).pcCodes) && (run != [] ==> PcSilent(m, run[..|run| - 1]))
  }

  /** The reorder buffer reports nothing during the whole run. */
  ghost predicate RobSilent(m: Setup, run: seq<Input>)
    requires m.Ok() && Driven(m.channels, run)
  {
    MachineAfter(m, run).rob.errcode == 0 && (run != [] ==> RobSilent(m, run[..|run| - 1]))
  }

  /** The output of the monitor stays zero during the whole run. */
  ghost predicate ErrcodeSilent(m: Setup, run: seq<Input>)
    requires m.Ok() && Driven(m.channels, run)
  {
    MachineAfter(m, run).errcode == 0 && (run != [] ==> ErrcodeSilent(m, run[..|run| - 1]))
  }

  ghost predicate InstructionsSilent(run: seq<Input>) {
    forall t | 0 <= t < |run| :: AllZero(run[t].channelCodes)
  }

  /** The run without its last `n` clocks. */
  function Past<T>(run: seq<T>, n: nat): seq<T> {
    if n <= |run| then run[..|run| - n] else []
  }

  lemma PastOfPast<T>(run: seq<T>)
    ensures Past(Past(run, 1), 1) == Past(run, 2)
  {
  }

  // ----------------------------------------------------------------------------------
  // Registers
  // ----------------------------------------------------------------------------------

  lemma LastRegisterCodes(m: Setup, run: seq<Input>)
    requires m.Ok() && Driven(m.channels, run) && run != []
    requires CodesVisible(m.channels)
    ensures var s := MachineAfter(m, run[..|run| - 1]);
            AllZero(MachineAfter(m, run).registerCodes) <==> AllReadsOk(s.registers, Listed(s.rob.out))
  {
    var s := MachineAfter(m, run[..|run| - 1]);
    SilentIffReadsOk(s.registers, s.rob.out, m.channels);
    assert s.rob.out[..m.channels] == s.rob.out;
    assert MachineAfter(m, run).registerCodes == RegisterCodes(s.registers, s.rob.out);
  }

  /** The packets compared so far are exactly those released up to the previous clock. */
  lemma {:induction false} RegistersSilentIff(m: Setup, run: seq<Input>)
    requires m.Ok() && Driven(m.channels, run)
    requires CodesVisible(m.channels)
    ensures RegistersSilent(m, run) <==> AllReadsOk(ResetRegisters(m.values), ReleasedBy(m, Past(run, 1)))
    decreases |run|
  {
    if run == [] {
      ReleasedNothing(m);
    } else {
      var before := run[..|run| - 1];
      var s := MachineAfter(m, before);
      LastRegisterCodes(m, run);
      RegistersSilentIff(m, before);
      if before == [] {
        IdleListed(m.channels);
        ReleasedNothing(m);
      } else {
        RegistersOfMonitor(m, before);
        ReleasedByStep(m, before);
        AllReadsOkAppend(ResetRegisters(m.values), ReleasedBy(m, before[..|before| - 1]), Listed(s.rob.out));
      }
    }
  }

  // ----------------------------------------------------------------------------------
  // Program counter
  // ----------------------------------------------------------------------------------

  /** The released packets, one list for each clock. */
  function Bursts(m: Setup, run: seq<Input>): (bs: seq<seq<Retired>>)
    requires m.Ok() && Driven(m.channels, run)
    ensures |bs| == |run|
  {
    if run == [] then [] else Bursts(m, run[..|run| - 1]) + [Listed(MachineAfter(m, run).rob.out)]
  }

  function Flat(bs: seq<seq<Retired>>): seq<Retired> {
    if bs == [] then [] else Flat(bs[..|bs| - 1]) + bs[|bs| - 1]
  }

  /** The packets `b` of one clock follow the packets `a` of earlier clocks, as far as the monitor looks. */
  ghost predicate Follows(a: seq<Retired>, b: seq<Retired>) {
    && (a != [] && b != [] ==> a[|a| - 1].trap || b[0].intr || b[0].pcRead == a[|a| - 1].pcWrite)
    && forall k | 1 <= k < |b| :: LinkedInClock(b[k - 1], b[k])
  }

  ghost predicate LinkedBursts(bs: seq<seq<Retired>>) {
    bs == [] || (LinkedBursts(bs[..|bs| - 1]) && Follows(Flat(bs[..|bs| - 1]), bs[|bs| - 1]))
  }

  lemma {:induction false} BurstsAreReleased(m: Setup, run: seq<Input>)
    requires m.Ok() && Driven(m.channels, run)
    ensures Flat(Bursts(m, run)) == ReleasedBy(m, run)
    decreases |run|
  {
    if run == [] {
      ReleasedNothing(m);
    } else {
      var before := run[..|run| - 1];
      BurstsAreReleased(m, before);
      ReleasedByStep(m, run);
      assert Bursts(m, run)[..|run| - 1] == Bursts(m, before);
    }
  }

  /** The shadow pc has followed exactly the packets released up to the previous clock, and is sane. */
  lemma {:induction false} PcOfMonitor(m: Setup, run: seq<Input>)
    requires m.Ok() && Driven(m.channels, run) && run != []
    ensures MachineAfter(m, run).pc == FollowAll(ResetPc(m.pc), ReleasedBy(m, run[..|run| - 1]))
    ensures Sane(MachineAfter(m, run).pc)
    decreases |run|
  {
    var before := run[..|run| - 1];
    if before == [] {
      ReleasedNothing(m);
      IdleListed(m.channels);
    } else {
      PcOfMonitor(m, before);
      ReleasedByStep(m, before);
      LinkedAppend(ResetPc(m.pc), ReleasedBy(m, before[..|before| - 1]), Listed(MachineAfter(m, before).rob.out));
    }
  }

  lemma FollowsFromReset(pc: nat, a: seq<Retired>, b: seq<Retired>)
    ensures LinkedTogether(FollowAll(ResetPc(pc), a), b) <==> Follows(a, b)
  {
  }

  lemma LastPcCodes(m: Setup, run: seq<Input>)
    requires m.Ok() && Driven(m.channels, run) && run != []
    requires Sane(MachineAfter(m, run[..|run| - 1]).pc)
    ensures var s := MachineAfter(m, run[..|run| - 1]);
            AllZero(MachineAfter(m, run).pcCodes) <==> LinkedTogether(s.pc, Listed(s.rob.out))
  {
    var s := MachineAfter(m, run[..|run| - 1]);
    SilentIffLinked(s.pc, s.rob.out, m.channels);
    assert s.rob.out[..m.channels] == s.rob.out;
    assert MachineAfter(m, run).pcCodes == PcCodes(s.pc, s.rob.out);
  }

  lemma LinkedBurstsStep(m: Setup, run: seq<Input>)
    requires m.Ok() && Driven(m.channels, run) && run != []
    ensures var front := Bursts(m, run[..|run| - 1]);
            LinkedBursts(Bursts(m, run)) <==>
              LinkedBursts(front) && Follows(Flat(front), Listed(MachineAfter(m, run).rob.out))
  {
    var bs := Bursts(m, run);
    assert bs[..|bs| - 1] == Bursts(m, run[..|run| - 1]);
  }

  /** The pc codes of a clock judge the packets released by the clock before it. */
  lemma LastClockFollows(m: Setup, run: seq<Input>, before: seq<Input>, earlier: seq<Input>)
    requires m.Ok() && Driven(m.channels, run)
    requires run != [] && before == run[..|run| - 1]
    requires before != [] && earlier == before[..|before| - 1]
    ensures AllZero(MachineAfter(m, run).pcCodes) <==>
              Follows(Flat(Bursts(m, earlier)), Listed(MachineAfter(m, before).rob.out))
  {
    PcOfMonitor(m, before);
    LastPcCodes(m, run);
    BurstsAreReleased(m, earlier);
    FollowsFromReset(m.pc, ReleasedBy(m, earlier), Listed(MachineAfter(m, before).rob.out));
  }

  /** The pc comparisons stay silent exactly when every clock's packets follow what was released before. */
  lemma {:induction false} PcSilentIff(m: Setup, run: seq<Input>)
    requires m.Ok() && Driven(m.channels, run)
    ensures PcSilent(m, run) <==> LinkedBursts(Bursts(m, Past(run, 1)))
    decreases |run|
  {
    if run != [] {
      var before := run[..|run| - 1];
      PcSilentIff(m, before);
      if before == [] {
        LastPcCodes(m, run);
        IdleListed(m.channels);
      } else {
        LastClockFollows(m, run, before, before[..|before| - 1]);
        LinkedBurstsStep(m, before);
      }
    }
  }

  /** It does not matter whose trap bit is asked about any two packets that leave in one clock. */
  ghost predicate SameVerdicts(b: seq<Retired>) {
    forall k | 1 <= k < |b| :: SameVerdict(b[k - 1], b[k])
  }

  /** Then the monitor checks the links of the stream, however it is cut into clocks. */
  lemma {:induction false} LinkedBurstsAreLinked(bs: seq<seq<Retired>>)
    requires forall j | 0 <= j < |bs| :: SameVerdicts(bs[j])
    ensures LinkedBursts(bs) <==> Linked(Flat(bs))
  {
    if bs != [] {
      var front, b := bs[..|bs| - 1], bs[|bs| - 1];
      assert forall j | 0 <= j < |front| :: front[j] == bs[j];
      LinkedBurstsAreLinked(front);
      LinkedAppend(ResetPc(0), Flat(front), b);
      FollowsFromReset(0, Flat(front), b);
      assert SameVerdicts(bs[|bs| - 1]);
      LinkedTogetherIsLinked(FollowAll(ResetPc(0), Flat(front)), b);
    }
  }

  lemma {:induction false} PacketsAtMost(out: Channels)
    ensures |Listed(out)| <= |out|
  {
    if out != [] { PacketsAtMost(out[..|out| - 1]); }
  }

  /** With one channel no clock releases two packets. */
  lemma {:induction false} OneChannelVerdicts(m: Setup, run: seq<Input>)
    requires m.Ok() && Driven(m.channels, run) && m.channels == 1
    ensures forall j | 0 <= j < |run| :: SameVerdicts(Bursts(m, run)[j])
    decreases |run|
  {
    if run != [] {
      OneChannelVerdicts(m, run[..|run| - 1]);
      PacketsAtMost(MachineAfter(m, run).rob.out);
    }
  }

  /** No packet that is presented traps. */
  predicate TrapFree(run: seq<Input>) {
    forall t, c | 0 <= t < |run| && 0 <= c < |run[t].packets| && run[t].packets[c].Some? ::
      !run[t].packets[c].value.data.trap
  }

  lemma TrapFreeOutputs(powerUp: seq<Slot<Retired>>, packets: seq<Channels>, channels: nat)
    requires powerUp != [] && Run(channels, packets) && packets != []
    requires forall t, c | 0 <= t < |packets| && 0 <= c < |packets[t]| && packets[t][c].Some? ::
               !packets[t][c].value.data.trap
    ensures var ps := Listed(After(powerUp, channels, packets).out);
            forall k | 0 <= k < |ps| :: !ps[k].trap
  {
    var out := After(powerUp, channels, packets).out;
    forall k: nat | k < |Listed(out)| ensures !Listed(out)[k].trap {
      var c := PacketFromChannel(out, k);
      ReleasedArrivedEarlier(powerUp, channels, packets, c);
    }
  }

  lemma TrapFreeLast(m: Setup, run: seq<Input>)
    requires m.Ok() && Driven(m.channels, run) && TrapFree(run) && run != []
    ensures SameVerdicts(Listed(MachineAfter(m, run).rob.out))
  {
    RobOfMonitor(m, run);
    TrapFreeOutputs(m.powerUp, PacketsOf(run), m.channels);
  }

  lemma {:induction false} TrapFreeVerdicts(m: Setup, run: seq<Input>)
    requires m.Ok() && Driven(m.channels, run) && TrapFree(run)
    ensures forall j | 0 <= j < |run| :: SameVerdicts(Bursts(m, run)[j])
    decreases |run|
  {
    if run != [] {
      TrapFreeVerdicts(m, run[..|run| - 1]);
      TrapFreeLast(m, run);
    }
  }

  // ----------------------------------------------------------------------------------
  // The aggregated code
  // ----------------------------------------------------------------------------------

  /** The output is nonzero exactly one clock after some code is nonzero. */
  lemma AggregatedNextClock(m: Setup, run: seq<Input>)
    requires m.Ok() && Driven(m.channels, run) && run != []
    ensures var s := MachineAfter(m, run[..|run| - 1]);
            MachineAfter(m, run).errcode == 0 <==>
              && AllZero(run[|run| - 1].channelCodes) && s.rob.errcode == 0
              && AllZero(s.pcCodes) && AllZero(s.registerCodes)
  {
    var s, codes := MachineAfter(m, run[..|run| - 1]), run[|run| - 1].channelCodes;
    AggregateZero(AllCodes(s, codes));
    AllZeroAppend(codes, [s.rob.errcode]);
    AllZeroAppend(codes + [s.rob.errcode], s.pcCodes);
    AllZeroAppend(codes + [s.rob.errcode] + s.pcCodes, s.registerCodes);
    assert AllZero([s.rob.errcode]) <==> s.rob.errcode == 0 by {
      assert [s.rob.errcode][0] == s.rob.errcode;
    }
    assert MachineAfter(m, run).errcode == Aggregate(AllCodes(s, codes));
  }

  lemma AllZeroAppend(a: seq<nat>, b: seq<nat>)
    ensures AllZero(a + b) <==> AllZero(a) && AllZero(b)
  {
    assert forall i | 0 <= i < |a| :: (a + b)[i] == a[i];
    assert forall i | 0 <= i < |b| :: (a + b)[|a| + i] == b[i];
  }

  lemma InstructionsSilentStep(run: seq<Input>)
    requires run != []
    ensures InstructionsSilent(run) <==>
              InstructionsSilent(run[..|run| - 1]) && AllZero(run[|run| - 1].channelCodes)
  {
    var before := run[..|run| - 1];
    if InstructionsSilent(run) {
      forall t | 0 <= t < |before| ensures AllZero(before[t].channelCodes) {
        assert AllZero(run[t].channelCodes);
      }
    }
    if InstructionsSilent(before) && AllZero(run[|run| - 1].channelCodes) {
      forall t | 0 <= t < |run| ensures AllZero(run[t].channelCodes) {
        if t < |before| { assert AllZero(before[t].channelCodes); }
      }
    }
  }

  lemma {:induction false} ErrcodeCollects(m: Setup, run: seq<Input>)
    requires m.Ok() && Driven(m.channels, run)
    ensures var before := Past(run, 1);
            ErrcodeSilent(m, run) <==>
              InstructionsSilent(run) && RobSilent(m, before) && PcSilent(m, before) && RegistersSilent(m, before)
    decreases |run|
  {
    if run != [] {
      AggregatedNextClock(m, run);
      InstructionsSilentStep(run);
      ErrcodeCollects(m, run[..|run| - 1]);
    }
  }

  /**
   The meaning of the output, on every run: it stays zero if and only if no instruction check
   and no reorder check reports anything, the packets released up to two clocks ago read
   registers like a sequential machine, and the packets of each of those clocks follow the
   earlier ones and each other.
   */
  lemma ErrcodeMeaning(m: Setup, run: seq<Input>)
    requires m.Ok() && Driven(m.channels, run)
    requires CodesVisible(m.channels)
    ensures ErrcodeSilent(m, run) <==>
              && InstructionsSilent(run) && RobSilent(m, Past(run, 1))
              && Sequential(ReleasedBy(m, Past(run, 2)))
              && LinkedBursts(Bursts(m, Past(run, 2)))
  {
    PastOfPast(run);
    ErrcodeCollects(m, run);
    RegistersSilentIff(m, Past(run, 1));
    PcSilentIff(m, Past(run, 1));
    ReadsOkIffSequential(m.values, ReleasedBy(m, Past(run, 2)));
  }

  /** A monitor for one channel, or for cores that never trap, follows the program counter of the stream exactly. */
  lemma ErrcodeMeaningInOrder(m: Setup, run: seq<Input>)
    requires m.Ok() && Driven(m.channels, run)
    requires CodesVisible(m.channels)
    requires m.channels == 1 || TrapFree(run)
    ensures var released := ReleasedBy(m, Past(run, 2));
            ErrcodeSilent(m, run) <==>
              InstructionsSilent(run) && RobSilent(m, Past(run, 1)) && Sequential(released) && Linked(released)
  {
    var past := Past(run, 2);
    ErrcodeMeaning(m, run);
    BurstsAreReleased(m, past);
    if m.channels == 1 {
      OneChannelVerdicts(m, past);
    } else {
      TrapFreeVerdicts(m, past);
    }
    LinkedBurstsAreLinked(Bursts(m, past));
  }

  lemma PacketsPrefix(run: seq<Input>, t: nat)
    requires t < |run|
    ensures PacketsOf(run[..|run| - 1])[..t] == PacketsOf(run)[..t]
  {
  }

  lemma RobSilentNow(m: Setup, run: seq<Input>)
    requires m.Ok() && Driven(m.channels, run) && RobSilent(m, run)
    ensures Rob.After(m.powerUp, m.channels, PacketsOf(run)).errcode == 0
  {
    RobOfMonitor(m, run);
  }

  lemma {:induction false} RobSilentAt(m: Setup, run: seq<Input>, t: nat)
    requires m.Ok() && Driven(m.channels, run) && t <= |run|
    requires RobSilent(m, run)
    ensures Rob.After(m.powerUp, m.channels, PacketsOf(run)[..t]).errcode == 0
    decreases |run|
  {
    if t == |run| {
      RobSilentNow(m, run);
      assert PacketsOf(run)[..t] == PacketsOf(run);
    } else {
      RobSilentAt(m, run[..|run| - 1], t);
      PacketsPrefix(run, t);
    }
  }

  lemma RobSilentIsNoCode(m: Setup, run: seq<Input>)
    requires m.Ok() && Driven(m.channels, run)
    requires RobSilent(m, run)
    ensures NoCode(m.powerUp, m.channels, PacketsOf(run))
  {
    forall t | 0 <= t <= |run| ensures Rob.After(m.powerUp, m.channels, PacketsOf(run)[..t]).errcode == 0 {
      RobSilentAt(m, run, t);
    }
  }

  /** What the reorder buffer has not reported while the output was zero. */
  lemma BufferWasSilent(m: Setup, run: seq<Input>)
    requires m.Ok() && Driven(m.channels, run)
    requires ErrcodeSilent(m, run)
    ensures NoCode(m.powerUp, m.channels, PacketsOf(Past(run, 2)))
  {
    ErrcodeCollects(m, run);
    RobSilentPast(m, Past(run, 1));
    PastOfPast(run);
    RobSilentIsNoCode(m, Past(run, 2));
  }

  lemma RobSilentPast(m: Setup, run: seq<Input>)
    requires m.Ok() && Driven(m.channels, run)
    requires RobSilent(m, run)
    ensures RobSilent(m, Past(run, 1))
  {
  }

  /**
   Soundness, from the output alone, for any number of channels and whatever arrives: while it
   stays zero, the packets released up to two clocks ago carry the orders 0, 1, 2, ..., every one
   of them was presented to the monitor with that order and that data, in that order every one of
   them reads the latest earlier write of its registers, and their program counters follow each
   other.
   */
  lemma Soundness(m: Setup, run: seq<Input>)
    requires m.Ok() && Driven(m.channels, run)
    requires CodesVisible(m.channels)
    requires ErrcodeSilent(m, run)
    ensures Sequential(ReleasedBy(m, Past(run, 2))) && LinkedBursts(Bursts(m, Past(run, 2)))
    ensures var past := PacketsOf(Past(run, 2));
            var packets := Released(m.powerUp, m.channels, past);
            Numbered(packets) && AllArrived(past, packets)
  {
    ErrcodeMeaning(m, run);
    ReleasedWhileSilent(m, run);
  }

  lemma ReleasedWhileSilent(m: Setup, run: seq<Input>)
    requires m.Ok() && Driven(m.channels, run)
    requires ErrcodeSilent(m, run)
    ensures var past := PacketsOf(Past(run, 2));
            var packets := Released(m.powerUp, m.channels, past);
            Numbered(packets) && AllArrived(past, packets)
  {
    BufferWasSilent(m, run);
    NoCodeReleases(m.powerUp, m.channels, PacketsOf(Past(run, 2)));
  }

  /**
   And nothing is swallowed: while the output stays zero, every packet presented up to two clocks
   ago that was not overwritten in its own clock has been released or waits in its slot, and one
   that was presented once and overwritten is gone.
   */
  lemma SoundnessOfBuffer(m: Setup, run: seq<Input>, t: nat, c: nat)
    requires m.Ok() && Driven(m.channels, run)
    requires CodesVisible(m.channels)
    requires ErrcodeSilent(m, run)
    requires Presented(PacketsOf(Past(run, 2)), t, c)
    ensures var past := PacketsOf(Past(run, 2));
            && (!Overwritten(past[t], c, |m.powerUp|) ==> Accounted(m.powerUp, m.channels, past, past[t][c].value))
            && (Overwritten(past[t], c, |m.powerUp|) && Once(past, t, c) ==>
                  !Accounted(m.powerUp, m.channels, past, past[t][c].value))
  {
    BufferWasSilent(m, run);
    KeptOrLost(m.powerUp, m.channels, PacketsOf(Past(run, 2)), t, c);
  }
}
