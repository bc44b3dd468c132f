/**
 The reorder buffer on runs in which reset may be high in any clock, from any contents of its
 registers: once there has been a clock with reset, everything starts again from order 0, and
 what the other modules say of runs from reset holds of the clocks since the last reset.
 */
module RobResets {
  import opened Interface
  import opened Options
  import opened Rob
  import opened RobKept
  import opened RobOrder

  /** One clock edge. */
  datatype Edge<+D> = Edge(reset: bool, ins: seq<Option<Slot<D>>>)

  predicate Edges<D>(channels: nat, edges: seq<Edge<D>>) {
    forall t | 0 <= t < |edges| :: |edges[t].ins| == channels
  }

  /** Register contents of the right sizes; the values are arbitrary. */
  predicate Contents<D>(s: State<D>, channels: nat) {
    |s.buffer| == |s.valid| > 0 && |s.out| == channels
  }

  function AfterEdges<D>(start: State<D>, channels: nat, edges: seq<Edge<D>>): (s: State<D>)
    requires Contents(start, channels) && Edges(channels, edges)
    ensures Contents(s, channels) && |s.buffer| == |start.buffer|
  {
    if edges == [] then start
    else
      var last := edges[|edges| - 1];
      Next(AfterEdges(start, channels, edges[..|edges| - 1]), last.reset, last.ins)
  }

  /** There has been a clock with reset. */
  predicate WasReset<D>(edges: seq<Edge<D>>) {
    exists t :: 0 <= t < |edges| && edges[t].reset
  }

  lemma WasResetBefore<D>(edges: seq<Edge<D>>)
    requires WasReset(edges) && !edges[|edges| - 1].reset
    ensures WasReset(edges[..|edges| - 1])
  {
    var t :| 0 <= t < |edges| && edges[t].reset;
    assert edges[..|edges| - 1][t].reset;
  }

  /** The clocks after the last one with reset. */
  function SinceReset<D>(edges: seq<Edge<D>>): seq<seq<Option<Slot<D>>>> {
    if edges == [] || edges[|edges| - 1].reset then []
    else SinceReset(edges[..|edges| - 1]) + [edges[|edges| - 1].ins]
  }

  /** Everything that has left the buffer after the last clock with reset. */
  function ReleasedSinceReset<D>(start: State<D>, channels: nat, edges: seq<Edge<D>>): seq<Slot<D>>
    requires Contents(start, channels) && Edges(channels, edges)
  {
    if edges == [] || edges[|edges| - 1].reset then []
    else
      ReleasedSinceReset(start, channels, edges[..|edges| - 1]) + Packets(AfterEdges(start, channels, edges).out)
  }

  /** No clock since the last reset reports anything. */
  ghost predicate NoCodeSinceReset<D>(start: State<D>, channels: nat, edges: seq<Edge<D>>)
    requires Contents(start, channels) && Edges(channels, edges)
  {
    && AfterEdges(start, channels, edges).errcode == 0
    && (edges != [] && !edges[|edges| - 1].reset ==> NoCodeSinceReset(start, channels, edges[..|edges| - 1]))
  }

  /** A clock with reset makes the state that runs start from, whatever the registers hold. */
  lemma ResetRestarts<D>(s: State<D>, ins: seq<Option<Slot<D>>>)
    requires |s.buffer| == |s.valid| > 0 && |ins| == |s.out|
    ensures Next(s, true, ins) == ResetState(s.buffer, |s.out|)
    ensures Next(s, true, ins).cursor == 0 && Next(s, true, ins).errcode == 0
    ensures Packets(Next(s, true, ins).out) == []
    ensures forall i | 0 <= i < |s.valid| :: !Next(s, true, ins).valid[i]
  {
    NothingIdle<D>(|s.out|);
  }

  lemma {:induction false} NothingIdle<D>(channels: nat)
    ensures Packets<D>(Idle(channels)) == []
  {
    if channels > 0 {
      var out: seq<Option<Slot<D>>> := Idle(channels);
      assert out[..channels - 1] == Idle(channels - 1);
      NothingIdle<D>(channels - 1);
    }
  }

  /** What the last reset found in the buffer memory. */
  function Found<D>(start: State<D>, channels: nat, edges: seq<Edge<D>>): (powerUp: seq<Slot<D>>)
    requires Contents(start, channels) && Edges(channels, edges)
    ensures |powerUp| == |start.buffer|
  {
    if edges == [] then start.buffer
    else
      var before := edges[..|edges| - 1];
      if edges[|edges| - 1].reset then AfterEdges(start, channels, before).buffer
      else Found(start, channels, before)
  }

  /** Since the last reset the buffer is in a run from reset. */
  lemma {:induction false} RunSinceReset<D>(start: State<D>, channels: nat, edges: seq<Edge<D>>)
    requires Contents(start, channels) && Edges(channels, edges)
    requires WasReset(edges)
    ensures Run(channels, SinceReset(edges))
    ensures AfterEdges(start, channels, edges) == After(Found(start, channels, edges), channels, SinceReset(edges))
    ensures ReleasedSinceReset(start, channels, edges)
         == Released(Found(start, channels, edges), channels, SinceReset(edges))
    decreases |edges|
  {
    var before, last := edges[..|edges| - 1], edges[|edges| - 1];
    if last.reset {
      ResetRestarts(AfterEdges(start, channels, before), last.ins);
    } else {
      WasResetBefore(edges);
      RunSinceReset(start, channels, before);
      var run := SinceReset(edges);
      assert run[..|run| - 1] == SinceReset(before) && run[|run| - 1] == last.ins;
    }
  }

  lemma {:induction false} SilentSinceReset<D>(start: State<D>, channels: nat, edges: seq<Edge<D>>, t: nat)
    requires Contents(start, channels) && Edges(channels, edges)
    requires WasReset(edges) && NoCodeSinceReset(start, channels, edges)
    requires t <= |SinceReset(edges)|
    ensures Run(channels, SinceReset(edges))
    ensures After(Found(start, channels, edges), channels, SinceReset(edges)[..t]).errcode == 0
    decreases |edges|
  {
    RunSinceReset(start, channels, edges);
    var run := SinceReset(edges);
    if t == |run| {
      assert run[..t] == run;
    } else {
      var before := edges[..|edges| - 1];
      WasResetBefore(edges);
      SilentSinceReset(start, channels, before, t);
      assert run[..t] == SinceReset(before)[..t];
    }
  }

  /** The cursor counts the packets released since the last reset, and only those. */
  lemma CursorSinceReset<D>(start: State<D>, channels: nat, edges: seq<Edge<D>>)
    requires Contents(start, channels) && Edges(channels, edges)
    requires WasReset(edges)
    ensures AfterEdges(start, channels, edges).cursor == |ReleasedSinceReset(start, channels, edges)| % WRAP
  {
    RunSinceReset(start, channels, edges);
    CursorCounts(Found(start, channels, edges), channels, SinceReset(edges));
  }

  /**
   After a reset at any time the buffer starts again: without a code since then, the packets
   released since then carry the orders 0, 1, 2, ..., and each was presented since then.
   */
  lemma ReleasedAfterReset<D(!new)>(start: State<D>, channels: nat, edges: seq<Edge<D>>)
    requires Contents(start, channels) && Edges(channels, edges)
    requires WasReset(edges) && NoCodeSinceReset(start, channels, edges)
    ensures Numbered(ReleasedSinceReset(start, channels, edges))
    ensures AllArrived(SinceReset(edges), ReleasedSinceReset(start, channels, edges))
  {
    RunSinceReset(start, channels, edges);
    forall t | 0 <= t <= |SinceReset(edges)|
      ensures After(Found(start, channels, edges), channels, SinceReset(edges)[..t]).errcode == 0
    {
      SilentSinceReset(start, channels, edges, t);
    }
    NoCodeReleases(Found(start, channels, edges), channels, SinceReset(edges));
  }
}
