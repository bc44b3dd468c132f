/**
 When the assertions of the write observer about its FIFOs hold, in terms of the transfers on
 the bus alone: how many of them are outstanding, and whether responses come too early.
 */
module AxiDepth {
  import opened Options
  import opened Events
  import opened AxiWrite
  import opened AxiSchedule
  import opened AxiProphecy
  import Fifo

  /** The assertion on unexpected B transfers holds in the first `t` cycles. */
  ghost predicate ExpectedBefore(c: Config, run: seq<Signals>, t: nat)
    requires c.space > 0 && t <= |run|
  {
    forall u | 0 <= u < t :: ResponseOk(After(c, run[..u]), run[u])
  }

  /** Beats whose W transfer and whose AW transfer are both among the first `t` cycles leave one per cycle, in order. */
  function Departed(run: seq<Signals>, t: nat): nat
    requires t <= |run|
  {
    if t == 0 then 0
    else
      var m := Departed(run, t - 1);
      if m < Count(WEvents(run), t) && Bursts(run, m) < Count(AwEvents(run), t) then m + 1 else m
  }

  /** The bursts finished by the first `m` beats. */
  function Bursts(run: seq<Signals>, m: nat): nat {
    var ws := Payloads(WEvents(run));
    BurstOf(ws, if m <= |ws| then m else |ws|)
  }

  /** Responses that find an AW transfer to answer, among the first `t` cycles. */
  function Taken(run: seq<Signals>, t: nat): nat
    requires t <= |run|
  {
    if t == 0 then 0
    else
      var n := Taken(run, t - 1);
      if BEvents(run)[t - 1].Some? && n < Count(AwEvents(run), t) then n + 1 else n
  }

  /** At most `depth` addresses wait for the end of their data or for their response, and at most as many beats. */
  predicate Outstanding(depth: nat, addresses: nat, bursts: nat, taken: nat, beats: nat, departed: nat) {
    addresses - bursts <= depth && addresses - taken <= depth && beats - departed <= depth
  }

  /** After the first `t` cycles no channel has more than DEPTH transfers that wait for another channel. */
  predicate Fits(c: Config, run: seq<Signals>, t: nat)
    requires t <= |run|
  {
    Outstanding(c.depth, Count(AwEvents(run), t), Bursts(run, Departed(run, t)), Taken(run, t),
                Count(WEvents(run), t), Departed(run, t))
  }

  ghost predicate FitsUpTo(c: Config, run: seq<Signals>, t: nat)
    requires t <= |run|
  {
    forall u | 0 < u <= t :: Fits(c, run, u)
  }

  /** After the first `t` cycles responses do not outnumber addresses. */
  predicate Answered(run: seq<Signals>, t: nat)
    requires t <= |run|
  {
    Count(BEvents(run), t) <= Count(AwEvents(run), t)
  }

  ghost predicate AnsweredUpTo(run: seq<Signals>, t: nat)
    requires t <= |run|
  {
    forall u | 0 < u <= t :: Answered(run, u)
  }

  lemma AnsweredOneMore(run: seq<Signals>, u: nat, t: nat)
    requires u + 1 == t <= |run|
    ensures AnsweredUpTo(run, t) <==> AnsweredUpTo(run, u) && Answered(run, t)
  {
  }

  /** Then every response is one of those counted. */
  lemma {:induction false} AllTaken(run: seq<Signals>, t: nat)
    requires t <= |run|
    ensures Taken(run, t) <= Count(BEvents(run), t)
    ensures AnsweredUpTo(run, t) ==> Taken(run, t) == Count(BEvents(run), t)
  {
    if t > 0 {
      AllTaken(run, t - 1);
      CutNext(BEvents(run), t - 1);
      AnsweredOneMore(run, t - 1, t);
    }
  }

  // ----------------------------------------------------------------------------------
  // Reported beats
  // ----------------------------------------------------------------------------------

  /** As long as the FIFOs are deep enough, the observer reports the beats that depart. */
  lemma {:induction false} ReportedDepart(c: Config, run: seq<Signals>, t: nat)
    requires c.space > 0 && t <= |run|
    requires t > 0 ==> SufficesBefore(c, run, t - 1)
    ensures Reported(c, run, t) == Departed(run, t)
  {
    if t > 0 {
      ReportedDepart(c, run, t - 1);
      QueuesThroughout(c, run, t - 1);
      ReportIs(c, run, t - 1, Reported(c, run, t - 1));
      CountsBounded(run, t);
    }
  }

  /** A beat has departed exactly when its due cycle is over. */
  lemma DepartedWhenDue(run: seq<Signals>, t: nat, j: nat)
    requires t <= |run|
    ensures j < Departed(run, t) <==> Served(run, j) && DueCycle(run, j) < t
  {
    var due, gone := DepartTiming(run);
    assert OnTime(due, gone, t);
    if Served(run, j) && j >= gone[t] { DueIncreases(run, gone[t], j); }
  }

  /** The departures as an instance of the timing argument. */
  lemma DepartTiming(run: seq<Signals>) returns (due: seq<nat>, gone: seq<nat>)
    ensures |gone| == |run| + 1
    ensures forall j: nat :: j < |due| <==> Served(run, j)
    ensures forall j | 0 <= j < |due| :: due[j] == DueCycle(run, j)
    ensures forall t | 0 <= t <= |run| :: gone[t] == Departed(run, t)
    ensures forall t | 0 <= t <= |run| :: OnTime(due, gone, t)
  {
    var n := ServedPrefixLength(run);
    var avail := seq(n, j requires 0 <= j < n => AvailableCycle(run, j));
    due := seq(n, j requires 0 <= j < n => DueCycle(run, j));
    gone := seq(|run| + 1, t requires 0 <= t <= |run| => Departed(run, t));
    var due', gone' := due, gone;
    DepartGreedily(run, avail, due, gone);
    forall t | 0 <= t <= |run| ensures OnTime(due', gone', t) {
      GreedyIsOnTime(avail, due', gone', t);
    }
  }

  lemma DepartGreedily(run: seq<Signals>, avail: seq<nat>, due: seq<nat>, gone: seq<nat>)
    requires |avail| == |due| && |gone| == |run| + 1
    requires forall j: nat :: j < |due| <==> Served(run, j)
    requires forall j | 0 <= j < |due| :: avail[j] == AvailableCycle(run, j) && due[j] == DueCycle(run, j)
    requires forall t | 0 <= t <= |run| :: gone[t] == Departed(run, t)
    ensures Greedy(avail, due, gone)
  {
    forall j | 0 <= j < |due| ensures DueStep(avail, due, j) {
      DueStepOf(run, avail, due, j);
    }
    forall u | 0 <= u < |run| ensures GoneStep(avail, gone, u) {
      DepartStep(run, avail, gone, u);
    }
  }

  lemma DepartStep(run: seq<Signals>, avail: seq<nat>, gone: seq<nat>, u: nat)
    requires u < |run| && |gone| == |run| + 1
    requires gone[u] == Departed(run, u) && gone[u + 1] == Departed(run, u + 1)
    requires gone[u] < |avail| <==> Served(run, gone[u])
    requires gone[u] < |avail| ==> avail[gone[u]] == AvailableCycle(run, gone[u])
    ensures GoneStep(avail, gone, u)
  {
    CountsBounded(run, u + 1);
    if Served(run, gone[u]) { AvailableBy(run, u, gone[u]); }
  }

  // ----------------------------------------------------------------------------------
  // Queues never hold more than they can
  // ----------------------------------------------------------------------------------

  ghost predicate Bounded(c: Config, st: State) {
    |st.aws| <= c.depth && |st.ws| <= c.depth && |st.guesses| <= c.depth
  }

  lemma NextBounded<T>(q: seq<T>, depth: nat, inValid: bool, inData: T, outReady: bool)
    requires |q| <= depth
    ensures |Fifo.QueueNext(q, depth, inValid, inData, outReady)| <= depth
  {
  }

  lemma {:induction false} BoundedThroughout(c: Config, run: seq<Signals>, t: nat)
    requires c.space > 0 && t <= |run|
    ensures Bounded(c, After(c, run[..t]))
  {
    if t > 0 {
      var u := t - 1;
      BoundedThroughout(c, run, u);
      AfterStep(c, run, u);
      assert u + 1 == t;
      BoundedStep(c, After(c, run[..u]), run[u]);
    }
  }

  lemma BoundedStep(c: Config, st: State, s: Signals)
    requires c.space > 0 && Bounded(c, st)
    ensures Bounded(c, Next(c, st, s))
  {
    NextBounded(st.aws, c.depth, s.awTransfer, Tagged(s.aw, s.guess), BurstEnds(st, s));
    NextBounded(st.ws, c.depth, s.wTransfer, s.w, AwVisible(st, s) != []);
    NextBounded(st.guesses, c.depth, s.awTransfer, s.guess, s.bTransfer);
  }

  /** The guesses that wait are those whose response has not come. */
  lemma {:induction false} GuessesWait(c: Config, run: seq<Signals>, t: nat)
    requires c.space > 0 && t <= |run|
    requires SufficesBefore(c, run, t)
    ensures |After(c, run[..t]).guesses| == Count(AwEvents(run), t) - Taken(run, t)
  {
    if t > 0 {
      var u := t - 1;
      GuessesWait(c, run, u);
      AfterStep(c, run, u);
      CutNext(AwEvents(run), u);
      assert DepthOk(c, After(c, run[..u]), run[u]);
    }
  }

  // ----------------------------------------------------------------------------------
  // One cycle
  // ----------------------------------------------------------------------------------

  /** The assertions of a cycle, in terms of what is outstanding before and after it. */
  lemma DepthOfStep(c: Config, st: State, s: Signals, aws: seq<Tagged>, ws: seq<WriteData>,
                    an: nat, wn: nat, an': nat, wn': nat, m: nat, m': nat, taken: nat, taken': nat)
    requires c.space > 0 && Bounded(c, st)
    requires Holds(c, st, aws, ws, an, wn, m)
    requires Arrives(s, aws, ws, an, wn, an', wn')
    requires m' == if Report(st, s).Some? then m + 1 else m
    requires |st.guesses| == an - taken
    requires taken' == if s.bTransfer && taken < an' then taken + 1 else taken
    ensures m' <= |ws|
    ensures DepthOk(c, st, s) <==> Outstanding(c.depth, an', BurstOf(ws, m'), taken', wn', m')
    ensures ResponseOk(st, s) <==> (s.bTransfer ==> taken < an')
  {
    VisibleStep(c, st, s, aws, ws, an, wn, an', wn', m);
  }

  lemma BurstsOf(run: seq<Signals>, m: nat)
    requires m <= |Payloads(WEvents(run))|
    ensures Bursts(run, m) == BurstOf(Payloads(WEvents(run)), m)
  {
  }

  /**
   As long as the DEPTH assertions have held: those of cycle `t` hold exactly when no channel has
   more than DEPTH transfers outstanding at the end of the cycle, and the assertion on responses
   exactly when a response of the cycle finds an AW transfer to answer.
   */
  lemma DepthMeaning(c: Config, run: seq<Signals>, t: nat)
    requires c.space > 0 && t < |run|
    requires SufficesBefore(c, run, t)
    ensures DepthOk(c, After(c, run[..t]), run[t]) <==> Fits(c, run, t + 1)
    ensures ResponseOk(After(c, run[..t]), run[t]) <==>
              (run[t].bTransfer ==> Taken(run, t) < Count(AwEvents(run), t + 1))
  {
    CycleMeaning(c, run, t, t + 1);
  }

  lemma CycleMeaning(c: Config, run: seq<Signals>, t: nat, u: nat)
    requires c.space > 0 && t + 1 == u <= |run|
    requires SufficesBefore(c, run, t)
    ensures DepthOk(c, After(c, run[..t]), run[t]) <==> Fits(c, run, u)
    ensures ResponseOk(After(c, run[..t]), run[t]) <==> (run[t].bTransfer ==> Taken(run, t) < Count(AwEvents(run), u))
  {
    var m, m' := Reported(c, run, t), Reported(c, run, u);
    GuessesWait(c, run, t);
    BoundedThroughout(c, run, t);
    QueuesThroughout(c, run, t);
    LogsAt(run, t);
    DepthOfStep(c, After(c, run[..t]), run[t], Payloads(AwEvents(run)), Payloads(WEvents(run)),
                Count(AwEvents(run), t), Count(WEvents(run), t),
                Count(AwEvents(run), u), Count(WEvents(run), u), m, m', Taken(run, t), Taken(run, u));
    ReportedDepart(c, run, u);
    BurstsOf(run, m');
  }

  /** As long as both kinds of assertions have held, that is a comparison of the two counts. */
  lemma ResponseMeaning(c: Config, run: seq<Signals>, t: nat, u: nat)
    requires c.space > 0 && t + 1 == u <= |run|
    requires SufficesBefore(c, run, t) && ExpectedBefore(c, run, t)
    ensures Taken(run, t) == Count(BEvents(run), t)
    ensures ResponseOk(After(c, run[..t]), run[t]) <==> Answered(run, u)
  {
    ExpectedSaysAnswered(c, run, t);
    AllTaken(run, t);
    LastAnswered(c, run, t, u);
  }

  // ----------------------------------------------------------------------------------
  // Whole runs
  // ----------------------------------------------------------------------------------

  lemma {:induction false} ExpectedSaysAnswered(c: Config, run: seq<Signals>, t: nat)
    requires c.space > 0 && t <= |run|
    requires SufficesBefore(c, run, t) && ExpectedBefore(c, run, t)
    ensures AnsweredUpTo(run, t)
  {
    if t > 0 {
      var u := t - 1;
      ExpectedSaysAnswered(c, run, u);
      assert ResponseOk(After(c, run[..u]), run[u]);
      LastAnswered(c, run, u, t);
      AnsweredOneMore(run, u, t);
    }
  }

  lemma AnsweredSaysExpected(c: Config, run: seq<Signals>, t: nat)
    requires c.space > 0 && t <= |run|
    requires SufficesBefore(c, run, t) && AnsweredUpTo(run, t)
    ensures ExpectedBefore(c, run, t)
  {
    forall u | 0 <= u < t ensures ResponseOk(After(c, run[..u]), run[u]) {
      assert Answered(run, u + 1);
      LastAnswered(c, run, u, u + 1);
    }
  }

  lemma LastAnswered(c: Config, run: seq<Signals>, u: nat, t: nat)
    requires c.space > 0 && u + 1 == t <= |run|
    requires SufficesBefore(c, run, u) && AnsweredUpTo(run, u)
    ensures ResponseOk(After(c, run[..u]), run[u]) <==> Answered(run, t)
  {
    AllTaken(run, u);
    DepthMeaning(c, run, u);
    CutNext(BEvents(run), u);
    CutNext(AwEvents(run), u);
    if u > 0 { assert Answered(run, u); }
  }

  lemma {:induction false} SufficesIsFits(c: Config, run: seq<Signals>, t: nat)
    requires c.space > 0 && t <= |run|
    ensures SufficesBefore(c, run, t) <==> FitsUpTo(c, run, t)
  {
    if t > 0 {
      SufficesIsFits(c, run, t - 1);
      if SufficesBefore(c, run, t - 1) { DepthMeaning(c, run, t - 1); }
      FitsOneMore(c, run, t - 1, t);
    }
  }

  lemma FitsOneMore(c: Config, run: seq<Signals>, u: nat, t: nat)
    requires u + 1 == t <= |run|
    ensures FitsUpTo(c, run, t) <==> FitsUpTo(c, run, u) && Fits(c, run, t)
  {
  }

  /**
   Over whole runs: the DEPTH assertions hold throughout if and only if at the end of no cycle
   more than DEPTH addresses wait for the end of their data, more than DEPTH addresses wait for
   their response, or more than DEPTH beats wait to be reported; and then no response is
   unexpected if and only if responses never outnumber addresses.
   */
  lemma AssertionsMeaning(c: Config, run: seq<Signals>)
    requires c.space > 0
    ensures DepthSuffices(c, run) <==> FitsUpTo(c, run, |run|)
    ensures DepthSuffices(c, run) ==> (ResponsesExpected(c, run) <==> AnsweredUpTo(run, |run|))
  {
    SufficesIsFits(c, run, |run|);
    if DepthSuffices(c, run) && ResponsesExpected(c, run) { ExpectedSaysAnswered(c, run, |run|); }
    if DepthSuffices(c, run) && AnsweredUpTo(run, |run|) { AnsweredSaysExpected(c, run, |run|); }
  }
}
