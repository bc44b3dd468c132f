/**
 The monitor on runs in which reset may be high in any clock, from any contents of its
 registers: the output means, for the clocks since the last reset, what it means for a run
 from reset.
 */
module MonitorResets {
  import opened Rob
  import opened Shadow
  import opened ShadowPc
  import opened Monitor
  import opened MonitorRuns

  /** One clock edge. */
  datatype Edge = Edge(reset: bool, input: Input)

  predicate Edges(channels: nat, edges: seq<Edge>) {
    forall t | 0 <= t < |edges| :: |edges[t].input.packets| == channels
  }

  /** Register contents of the right sizes; the values are arbitrary. */
  ghost predicate Contents(s: Machine, channels: nat) {
    |s.rob.buffer| == |s.rob.valid| > 0 && |s.rob.out| == channels && s.registers.Sized()
  }

  function AfterEdges(start: Machine, channels: nat, edges: seq<Edge>): (s: Machine)
    requires Contents(start, channels) && Edges(channels, edges)
    ensures Contents(s, channels)
  {
    if edges == [] then start
    else
      var before, last := AfterEdges(start, channels, edges[..|edges| - 1]), edges[|edges| - 1];
      if last.reset then Cleared(before, last.input) else MachineNext(before, last.input)
  }

  /** There has been a clock with reset. */
  predicate WasReset(edges: seq<Edge>) {
    exists t :: 0 <= t < |edges| && edges[t].reset
  }

  lemma WasResetBefore(edges: seq<Edge>)
    requires WasReset(edges) && !edges[|edges| - 1].reset
    ensures WasReset(edges[..|edges| - 1])
  {
    var t :| 0 <= t < |edges| && edges[t].reset;
    assert edges[..|edges| - 1][t].reset;
  }

  /** The inputs after the last clock with reset. */
  function SinceReset(edges: seq<Edge>): seq<Input> {
    if edges == [] || edges[|edges| - 1].reset then []
    else SinceReset(edges[..|edges| - 1]) + [edges[|edges| - 1].input]
  }

  /** The packets that have left the reorder buffer after the last clock with reset, one list for each clock. */
  function BurstsSinceReset(start: Machine, channels: nat, edges: seq<Edge>): seq<seq<Retired>>
    requires Contents(start, channels) && Edges(channels, edges)
  {
    if edges == [] || edges[|edges| - 1].reset then []
    else
      BurstsSinceReset(start, channels, edges[..|edges| - 1])
      + [Listed(AfterEdges(start, channels, edges).rob.out)]
  }

  /** The output has been zero since the last reset. */
  ghost predicate SilentSinceReset(start: Machine, channels: nat, edges: seq<Edge>)
    requires Contents(start, channels) && Edges(channels, edges)
  {
    && AfterEdges(start, channels, edges).errcode == 0
    && (edges != [] && !edges[|edges| - 1].reset ==> SilentSinceReset(start, channels, edges[..|edges| - 1]))
  }

  /** The codes of the reorder buffer in the clocks since the last reset. */
  function RobCodesSinceReset(start: Machine, channels: nat, edges: seq<Edge>): seq<nat>
    requires Contents(start, channels) && Edges(channels, edges)
  {
    if edges == [] || edges[|edges| - 1].reset then []
    else
      RobCodesSinceReset(start, channels, edges[..|edges| - 1]) + [AfterEdges(start, channels, edges).rob.errcode]
  }

  /** The contents that a reset finds and keeps. */
  function Kept(s: Machine): Setup {
    Setup(s.rob.buffer, s.registers.value, s.pc.pc, |s.rob.out|)
  }

  /** A clock with reset makes the state that runs start from, whatever the registers hold. */
  lemma ResetRestarts(s: Machine, input: Input)
    requires Contents(s, |input.packets|)
    ensures Kept(s).Ok()
    ensures Cleared(s, input) == MachineAfter(Kept(s), [])
    ensures Cleared(s, input).errcode == 0 && Cleared(s, input).rob.cursor == 0
  {
  }

  /** What the last reset found. */
  function Found(start: Machine, channels: nat, edges: seq<Edge>): (m: Setup)
    requires Contents(start, channels) && Edges(channels, edges)
    ensures m.Ok() && m.channels == channels
  {
    if edges == [] then Kept(start)
    else
      var before := edges[..|edges| - 1];
      if edges[|edges| - 1].reset then Kept(AfterEdges(start, channels, before)) else Found(start, channels, before)
  }

  /** The codes of the reorder buffer during a run from reset. */
  function RobCodes(m: Setup, run: seq<Input>): (codes: seq<nat>)
    requires m.Ok() && Driven(m.channels, run)
    ensures |codes| == |run|
  {
    if run == [] then [] else RobCodes(m, run[..|run| - 1]) + [MachineAfter(m, run).rob.errcode]
  }

  lemma {:induction false} RobSilentIffCodes(m: Setup, run: seq<Input>)
    requires m.Ok() && Driven(m.channels, run)
    ensures RobSilent(m, run) <==> AllZero(RobCodes(m, run))
    decreases |run|
  {
    if run != [] {
      var before, code := run[..|run| - 1], MachineAfter(m, run).rob.errcode;
      RobSilentIffCodes(m, before);
      AllZeroAppend(RobCodes(m, before), [code]);
      assert [code][0] == code;
    }
  }

  lemma PastBursts(m: Setup, run: seq<Input>)
    requires m.Ok() && Driven(m.channels, run)
    ensures Bursts(m, Past(run, 2)) == Past(Bursts(m, run), 2)
  {
    PastCodes(m, run);
    PastCodes(m, Past(run, 1));
    PastOfPast(run);
    PastOfPast(Bursts(m, run));
  }

  /** The meaning of the output, in terms of what the clocks released and reported. */
  lemma ErrcodeByClocks(m: Setup, run: seq<Input>)
    requires m.Ok() && Driven(m.channels, run)
    requires CodesVisible(m.channels)
    ensures var bursts := Past(Bursts(m, run), 2);
            ErrcodeSilent(m, run) <==>
              && InstructionsSilent(run) && AllZero(Past(RobCodes(m, run), 1))
              && Sequential(Flat(bursts)) && LinkedBursts(bursts)
  {
    ErrcodeMeaning(m, run);
    assert RobSilent(m, Past(run, 1)) <==> AllZero(Past(RobCodes(m, run), 1)) by {
      RobSilentIffCodes(m, Past(run, 1));
      PastCodes(m, run);
    }
    assert ReleasedBy(m, Past(run, 2)) == Flat(Past(Bursts(m, run), 2)) by {
      BurstsAreReleased(m, Past(run, 2));
      PastBursts(m, run);
    }
    PastBursts(m, run);
  }

  lemma PastCodes(m: Setup, run: seq<Input>)
    requires m.Ok() && Driven(m.channels, run)
    ensures RobCodes(m, Past(run, 1)) == Past(RobCodes(m, run), 1)
    ensures Bursts(m, Past(run, 1)) == Past(Bursts(m, run), 1)
  {
  }

  /** Since the last reset the monitor is in a run from reset. */
  lemma {:induction false} RunSinceReset(start: Machine, channels: nat, edges: seq<Edge>)
    requires Contents(start, channels) && Edges(channels, edges)
    requires WasReset(edges)
    ensures Driven(channels, SinceReset(edges))
    ensures AfterEdges(start, channels, edges) == MachineAfter(Found(start, channels, edges), SinceReset(edges))
    decreases |edges|
  {
    var before, last := edges[..|edges| - 1], edges[|edges| - 1];
    if last.reset {
      ResetRestarts(AfterEdges(start, channels, before), last.input);
    } else {
      WasResetBefore(edges);
      RunSinceReset(start, channels, before);
      OneMore(SinceReset(before), last.input);
    }
  }

  lemma OneMore(run: seq<Input>, input: Input)
    ensures var all := run + [input]; all[..|all| - 1] == run && all[|all| - 1] == input
  {
  }

  /** What it has released and reported since then is what that run releases and reports. */
  lemma {:induction false} LogsSinceReset(start: Machine, channels: nat, edges: seq<Edge>)
    requires Contents(start, channels) && Edges(channels, edges)
    requires WasReset(edges)
    ensures Driven(channels, SinceReset(edges))
    ensures var m, run := Found(start, channels, edges), SinceReset(edges);
            && BurstsSinceReset(start, channels, edges) == Bursts(m, run)
            && RobCodesSinceReset(start, channels, edges) == RobCodes(m, run)
            && (SilentSinceReset(start, channels, edges) <==> ErrcodeSilent(m, run))
    decreases |edges|
  {
    RunSinceReset(start, channels, edges);
    if !edges[|edges| - 1].reset {
      var before := edges[..|edges| - 1];
      WasResetBefore(edges);
      LogsSinceReset(start, channels, before);
      OneMore(SinceReset(before), edges[|edges| - 1].input);
    }
  }

  /**
   The meaning of the output after a reset at any time: it has stayed zero since then if and only
   if, since then, no instruction check and no reorder check reported anything, the packets
   released read registers like a sequential machine, and the packets of each clock follow the
   earlier ones and each other.  What came before the reset does not matter.
   */
  lemma MeaningAfterReset(start: Machine, channels: nat, edges: seq<Edge>)
    requires Contents(start, channels) && Edges(channels, edges)
    requires WasReset(edges) && CodesVisible(channels)
    ensures var bursts := Past(BurstsSinceReset(start, channels, edges), 2);
            SilentSinceReset(start, channels, edges) <==>
              && InstructionsSilent(SinceReset(edges))
              && AllZero(Past(RobCodesSinceReset(start, channels, edges), 1))
              && Sequential(Flat(bursts)) && LinkedBursts(bursts)
  {
    LogsSinceReset(start, channels, edges);
    ErrcodeByClocks(Found(start, channels, edges), SinceReset(edges));
  }
}
