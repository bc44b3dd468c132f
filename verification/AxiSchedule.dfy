/**
 What the write observer reports over whole runs: which beats, with which address,
 in which cycle, and with which response.
 */
module AxiSchedule {
  import opened Options
  import opened Events
  import opened Powers
  import opened AxiWrite
  import Fifo

  // ----------------------------------------------------------------------------------
  // The schedule
  // ----------------------------------------------------------------------------------

  /**
   The state when `an` AW and `wn` W transfers of the logs have arrived and `m` beats have been
   reported: the FIFOs hold what has arrived and is not yet used.
   */
  ghost predicate Holds(c: Config, st: State, aws: seq<Tagged>, ws: seq<WriteData>, an: nat, wn: nat, m: nat)
    requires c.space > 0
  {
    && an <= |aws| && m <= wn <= |ws|
    && var k := BurstOf(ws, m);
    && k <= an
    && st.aws == aws[k..an]
    && st.ws == ws[m..wn]
    && st.counter == BeatInBurst(ws, m) % 256
    && (BeatInBurst(ws, m) > 0 ==> k < an)
    && st.offset == if k < an then (BeatInBurst(ws, m) * Pow2(aws[k].aw.size)) % c.space else 0
  }

  /** The logs agree with the transfers of one cycle. */
  predicate Arrives(s: Signals, aws: seq<Tagged>, ws: seq<WriteData>, an: nat, wn: nat, an': nat, wn': nat) {
    && an' == (if s.awTransfer then an + 1 else an) <= |aws|
    && wn' == (if s.wTransfer then wn + 1 else wn) <= |ws|
    && (s.awTransfer ==> aws[an] == Tagged(s.aw, s.guess))
    && (s.wTransfer ==> ws[wn] == s.w)
  }

  lemma VisibleStep(c: Config, st: State, s: Signals, aws: seq<Tagged>, ws: seq<WriteData>,
                    an: nat, wn: nat, an': nat, wn': nat, m: nat)
    requires c.space > 0
    requires Holds(c, st, aws, ws, an, wn, m)
    requires Arrives(s, aws, ws, an, wn, an', wn')
    ensures AwVisible(st, s) == aws[BurstOf(ws, m)..an']
    ensures WVisible(st, s) == ws[m..wn']
    ensures Report(st, s) == if m < wn' && BurstOf(ws, m) < an' then Some(BeatOf(c, aws, ws, m)) else None
  {
    assert AwVisible(st, s) == aws[BurstOf(ws, m)..an'];
    assert WVisible(st, s) == ws[m..wn'];
    if m < wn' && BurstOf(ws, m) < an' && BurstOf(ws, m) == an {
      assert BeatInBurst(ws, m) == 0;
    }
  }

  /** Multiples of the beat size, reduced in steps or at once. */
  lemma OffsetStep(i: nat, i': nat, size: nat, space: nat, last: bool)
    requires space > 0 && i' == if last then 0 else i + 1
    ensures (if last then 0 else ((i * size) % space + size) % space) == (i' * size) % space
  {
    if last {
      assert i' * size == 0;
    } else {
      ModAdd(i * size, size, space);
      assert i' * size == i * size + size;
    }
  }

  /** The burst registers follow the position of the next beat in its burst. */
  lemma RegistersStep(c: Config, beat: Beat, i: nat, i': nat, size: nat)
    requires c.space > 0 && size == Pow2(beat.tagged.aw.size)
    requires beat.counter == i % 256 && beat.offset == (i * size) % c.space
    requires i' == if beat.w.last then 0 else i + 1
    ensures NextCounter(beat.counter, Some(beat)) == i' % 256
    ensures NextOffset(c, beat.offset, Some(beat)) == (i' * size) % c.space
  {
    CounterStep(i, i', beat.w.last);
    OffsetStep(i, i', size, c.space, beat.w.last);
  }

  lemma CounterStep(i: nat, i': nat, last: bool)
    requires i' == if last then 0 else i + 1
    ensures (if last then 0 else (i % 256 + 1) % 256) == i' % 256
  {
    ModAdd(i, 1, 256);
  }

  lemma QueuesStep(c: Config, st: State, s: Signals, aws: seq<Tagged>, ws: seq<WriteData>,
                   an: nat, wn: nat, an': nat, wn': nat, m: nat)
    requires c.space > 0
    requires Holds(c, st, aws, ws, an, wn, m)
    requires Arrives(s, aws, ws, an, wn, an', wn')
    requires DepthOk(c, st, s)
    ensures Holds(c, Next(c, st, s), aws, ws, an', wn', if Report(st, s).Some? then m + 1 else m)
  {
    VisibleStep(c, st, s, aws, ws, an, wn, an', wn', m);
    if Report(st, s).Some? {
      FiringStep(c, st, s, aws, ws, an, wn, an', wn', m);
    } else {
      WaitingStep(c, st, s, aws, ws, an, wn, an', wn', m);
    }
  }

  lemma FiringStep(c: Config, st: State, s: Signals, aws: seq<Tagged>, ws: seq<WriteData>,
                   an: nat, wn: nat, an': nat, wn': nat, m: nat)
    requires c.space > 0
    requires Holds(c, st, aws, ws, an, wn, m)
    requires Arrives(s, aws, ws, an, wn, an', wn')
    requires DepthOk(c, st, s) && m < wn' && BurstOf(ws, m) < an'
    requires AwVisible(st, s) == aws[BurstOf(ws, m)..an'] && WVisible(st, s) == ws[m..wn']
    requires Report(st, s) == Some(BeatOf(c, aws, ws, m))
    ensures Holds(c, Next(c, st, s), aws, ws, an', wn', m + 1)
  {
    var size := Pow2(aws[BurstOf(ws, m)].aw.size);
    RegistersStep(c, BeatOf(c, aws, ws, m), BeatInBurst(ws, m), BeatInBurst(ws, m + 1), size);
    if BeatInBurst(ws, m + 1) == 0 { assert (0 * size) % c.space == 0; }
    ReportedQueues(c, st, s, aws, ws, an', wn', m);
  }

  lemma WaitingStep(c: Config, st: State, s: Signals, aws: seq<Tagged>, ws: seq<WriteData>,
                    an: nat, wn: nat, an': nat, wn': nat, m: nat)
    requires c.space > 0
    requires Holds(c, st, aws, ws, an, wn, m)
    requires Arrives(s, aws, ws, an, wn, an', wn')
    requires DepthOk(c, st, s) && !(m < wn' && BurstOf(ws, m) < an')
    requires AwVisible(st, s) == aws[BurstOf(ws, m)..an'] && WVisible(st, s) == ws[m..wn']
    requires Report(st, s).None?
    ensures Holds(c, Next(c, st, s), aws, ws, an', wn', m)
  {
    var k := BurstOf(ws, m);
    assert Fifo.Pushed(st.ws, c.depth, s.wTransfer, s.w, AwVisible(st, s) != []) == ws[m..wn'];
    assert Fifo.Pushed(st.aws, c.depth, s.awTransfer, Tagged(s.aw, s.guess), BurstEnds(st, s)) == aws[k..an'];
    assert BeatInBurst(ws, m) == 0 || k < an;
  }

  /** The FIFOs after a reported beat. */
  lemma ReportedQueues(c: Config, st: State, s: Signals, aws: seq<Tagged>, ws: seq<WriteData>, an': nat, wn': nat, m: nat)
    requires c.space > 0 && m < wn' <= |ws| && BurstOf(ws, m) < an' <= |aws|
    requires AwVisible(st, s) == aws[BurstOf(ws, m)..an'] && WVisible(st, s) == ws[m..wn']
    requires DepthOk(c, st, s)
    ensures Next(c, st, s).ws == ws[m + 1..wn']
    ensures Next(c, st, s).aws == aws[BurstOf(ws, m + 1)..an']
  {
    assert Fifo.Pushed(st.ws, c.depth, s.wTransfer, s.w, AwVisible(st, s) != []) == ws[m..wn'];
    assert Fifo.Pushed(st.aws, c.depth, s.awTransfer, Tagged(s.aw, s.guess), BurstEnds(st, s))
        == aws[BurstOf(ws, m)..an'];
    assert ws[m..wn'][1..] == ws[m + 1..wn'];
    assert aws[BurstOf(ws, m)..an'][1..] == aws[BurstOf(ws, m) + 1..an'];
  }

  ghost predicate QueuesAt(c: Config, run: seq<Signals>, t: nat, m: nat)
    requires c.space > 0 && t <= |run|
  {
    Holds(c, After(c, run[..t]), Payloads(AwEvents(run)), Payloads(WEvents(run)),
          Count(AwEvents(run), t), Count(WEvents(run), t), m)
  }

  /** The logs of a run around cycle `t`. */
  lemma LogsAt(run: seq<Signals>, t: nat)
    requires t < |run|
    ensures Arrives(run[t], Payloads(AwEvents(run)), Payloads(WEvents(run)),
                    Count(AwEvents(run), t), Count(WEvents(run), t),
                    Count(AwEvents(run), t + 1), Count(WEvents(run), t + 1))
  {
    CutNext(AwEvents(run), t);
    CutNext(WEvents(run), t);
  }

  /** The state after one more cycle. */
  lemma AfterStep(c: Config, run: seq<Signals>, t: nat)
    requires c.space > 0 && t < |run|
    ensures After(c, run[..t + 1]) == Next(c, After(c, run[..t]), run[t])
  {
    var upTo := run[..t + 1];
    assert upTo[..|upTo| - 1] == run[..t] && upTo[|upTo| - 1] == run[t];
  }

  lemma QueuesRunStep(c: Config, run: seq<Signals>, t: nat, m: nat)
    requires c.space > 0 && t < |run|
    requires QueuesAt(c, run, t, m)
    requires DepthOk(c, After(c, run[..t]), run[t])
    ensures QueuesAt(c, run, t + 1, if ReportAt(c, run, t).Some? then m + 1 else m)
  {
    LogsAt(run, t);
    AfterStep(c, run, t);
    QueuesStep(c, After(c, run[..t]), run[t], Payloads(AwEvents(run)), Payloads(WEvents(run)),
               Count(AwEvents(run), t), Count(WEvents(run), t),
               Count(AwEvents(run), t + 1), Count(WEvents(run), t + 1), m);
  }

  /** What cycle `t` reports, in terms of the logs. */
  lemma ReportIs(c: Config, run: seq<Signals>, t: nat, m: nat)
    requires c.space > 0 && t < |run|
    requires QueuesAt(c, run, t, m)
    ensures ReportAt(c, run, t).Some? <==>
              m < Count(WEvents(run), t + 1) && BurstOf(Payloads(WEvents(run)), m) < Count(AwEvents(run), t + 1)
    ensures ReportAt(c, run, t).Some? ==> Served(run, m) && ReportAt(c, run, t) == Some(DueBeat(c, run, m))
  {
    LogsAt(run, t);
    VisibleStep(c, After(c, run[..t]), run[t], Payloads(AwEvents(run)), Payloads(WEvents(run)),
                Count(AwEvents(run), t), Count(WEvents(run), t),
                Count(AwEvents(run), t + 1), Count(WEvents(run), t + 1), m);
  }

  // The timing argument, on bare numbers: item `j` becomes available in cycle `avail[j]`, one item
  // leaves per cycle, in order, as soon as it is available.  Then item `j` leaves in cycle `due[j]`.

  predicate DueStep(avail: seq<nat>, due: seq<nat>, j: nat)
    requires j < |avail| == |due|
  {
    due[j] == Max(avail[j], if j == 0 then 0 else due[j - 1] + 1)
  }

  predicate GoneStep(avail: seq<nat>, gone: seq<nat>, u: nat)
    requires u + 1 < |gone|
  {
    gone[u + 1] == gone[u] + if gone[u] < |avail| && avail[gone[u]] <= u then 1 else 0
  }

  ghost predicate Greedy(avail: seq<nat>, due: seq<nat>, gone: seq<nat>) {
    && |avail| == |due| && gone != [] && gone[0] == 0
    && (forall j | 0 <= j < |due| :: DueStep(avail, due, j))
    && (forall u | 0 <= u < |gone| - 1 :: GoneStep(avail, gone, u))
  }

  /** Before cycle `t` exactly the items due before `t` have left, each in its due cycle. */
  ghost predicate OnTime(due: seq<nat>, gone: seq<nat>, t: nat)
    requires t < |gone|
  {
    && gone[t] <= |due|
    && (forall j | 0 <= j < gone[t] :: due[j] < t && gone[due[j]] == j && gone[due[j] + 1] == j + 1)
    && (gone[t] < |due| ==> due[gone[t]] >= t)
  }

  /** One cycle, given the two items it depends on. */
  lemma GreedyStep(avail: seq<nat>, due: seq<nat>, gone: seq<nat>, t: nat, j: nat)
    requires |avail| == |due| && t + 1 < |gone| && j == gone[t]
    requires j < |due| ==> DueStep(avail, due, j)
    requires j + 1 < |due| ==> DueStep(avail, due, j + 1)
    requires GoneStep(avail, gone, t)
    requires OnTime(due, gone, t)
    ensures OnTime(due, gone, t + 1)
  {
    if j < |due| && avail[j] <= t {
      assert j > 0 ==> due[j - 1] < t;
      assert due[j] == t;
    }
  }

  lemma {:induction false} GreedyIsOnTime(avail: seq<nat>, due: seq<nat>, gone: seq<nat>, t: nat)
    requires Greedy(avail, due, gone) && t < |gone|
    ensures OnTime(due, gone, t)
  {
    if t > 0 {
      GreedyIsOnTime(avail, due, gone, t - 1);
      GreedyStep(avail, due, gone, t - 1, gone[t - 1]);
    }
  }

  /** The number of beats reported before cycle `t`. */
  function Reported(c: Config, run: seq<Signals>, t: nat): nat
    requires c.space > 0 && t <= |run|
  {
    if t == 0 then 0
    else
      var m := Reported(c, run, t - 1);
      if ReportAt(c, run, t - 1).Some? then m + 1 else m
  }

  lemma {:induction false} QueuesThroughout(c: Config, run: seq<Signals>, t: nat)
    requires c.space > 0 && t <= |run|
    requires SufficesBefore(c, run, t)
    ensures QueuesAt(c, run, t, Reported(c, run, t))
  {
    if t == 0 {
      QueuesAtReset(c, run);
    } else {
      QueuesThroughout(c, run, t - 1);
      QueuesNext(c, run, t - 1, t);
    }
  }

  lemma QueuesNext(c: Config, run: seq<Signals>, u: nat, t: nat)
    requires c.space > 0 && t == u + 1 <= |run|
    requires DepthOk(c, After(c, run[..u]), run[u])
    requires QueuesAt(c, run, u, Reported(c, run, u))
    ensures QueuesAt(c, run, t, Reported(c, run, t))
  {
    QueuesRunStep(c, run, u, Reported(c, run, u));
    assert Reported(c, run, t) == if ReportAt(c, run, u).Some? then Reported(c, run, u) + 1 else Reported(c, run, u);
  }

  lemma QueuesAtReset(c: Config, run: seq<Signals>)
    requires c.space > 0
    ensures QueuesAt(c, run, 0, 0)
  {
    assert run[..0] == [];
    assert AwEvents(run)[..0] == [] && WEvents(run)[..0] == [];
  }

  /** The number of beats that are served within the run, counted from beat `j` on. */
  function ServedUpTo(run: seq<Signals>, j: nat): (n: nat)
    ensures n >= j && !Served(run, n)
    ensures forall i | j <= i < n :: Served(run, i)
    decreases |Payloads(WEvents(run))| - j
  {
    if Served(run, j) then ServedUpTo(run, j + 1) else j
  }

  lemma {:induction false} ServedIsPrefix(run: seq<Signals>, i: nat, j: nat)
    requires Served(run, j) && i <= j
    ensures Served(run, i)
    decreases j
  {
    if i < j {
      ServedBefore(run, j);
      ServedIsPrefix(run, i, j - 1);
    }
  }

  /** By cycle `t` beat `j` and its address have both arrived exactly if the logs up to `t` have both. */
  lemma AvailableBy(run: seq<Signals>, t: nat, j: nat)
    requires t < |run| && Served(run, j)
    ensures AvailableCycle(run, j) <= t <==>
              j < Count(WEvents(run), t + 1) && BurstOf(Payloads(WEvents(run)), j) < Count(AwEvents(run), t + 1)
  {
    Cut(AwEvents(run), t + 1);
    Cut(WEvents(run), t + 1);
  }

  lemma CountsBounded(run: seq<Signals>, t: nat)
    requires t <= |run|
    ensures Count(WEvents(run), t) <= |Payloads(WEvents(run))|
    ensures Count(AwEvents(run), t) <= |Payloads(AwEvents(run))|
  {
    Cut(AwEvents(run), t);
    Cut(WEvents(run), t);
  }

  /** Cycle `t` reports a beat exactly when the next unreported beat is available. */
  lemma ReportsGreedily(c: Config, run: seq<Signals>, t: nat)
    requires c.space > 0 && t < |run|
    requires DepthSuffices(c, run)
    ensures var m := Reported(c, run, t);
            ReportAt(c, run, t).Some? <==> Served(run, m) && AvailableCycle(run, m) <= t
  {
    var m := Reported(c, run, t);
    QueuesThroughout(c, run, t);
    ReportIs(c, run, t, m);
    CountsBounded(run, t + 1);
    if Served(run, m) { AvailableBy(run, t, m); }
  }

  /**
   The schedule: when the FIFOs are deep enough, beat `j` of the W channel is reported with
   the AW transfer of its burst, in the latest of its own cycle, the cycle of that AW
   transfer and the cycle after the previous report; and nothing else is ever reported.
   */
  lemma Schedule(c: Config, run: seq<Signals>)
    requires c.space > 0
    requires DepthSuffices(c, run)
    ensures forall j | Served(run, j) && DueCycle(run, j) < |run| ::
              ReportAt(c, run, DueCycle(run, j)) == Some(DueBeat(c, run, j))
    ensures forall t | 0 <= t < |run| && ReportAt(c, run, t).Some? ::
              exists j :: Served(run, j) && DueCycle(run, j) == t
  {
    forall j | Served(run, j) && DueCycle(run, j) < |run|
      ensures ReportAt(c, run, DueCycle(run, j)) == Some(DueBeat(c, run, j))
    {
      ReportedWhenDue(c, run, j);
    }
    forall t | 0 <= t < |run| && ReportAt(c, run, t).Some?
      ensures exists j :: Served(run, j) && DueCycle(run, j) == t
    {
      DueWhenReported(c, run, t);
    }
  }

  lemma GoneStepOf(c: Config, run: seq<Signals>, avail: seq<nat>, gone: seq<nat>, u: nat)
    requires c.space > 0 && u < |run| && u + 1 < |gone|
    requires DepthSuffices(c, run)
    requires gone[u] == Reported(c, run, u) && gone[u + 1] == Reported(c, run, u + 1)
    requires gone[u] < |avail| <==> Served(run, gone[u])
    requires gone[u] < |avail| ==> avail[gone[u]] == AvailableCycle(run, gone[u])
    ensures GoneStep(avail, gone, u)
  {
    ReportsGreedily(c, run, u);
  }

  lemma ServedPrefixLength(run: seq<Signals>) returns (n: nat)
    ensures forall j: nat :: j < n <==> Served(run, j)
  {
    n := ServedUpTo(run, 0);
    forall j: nat ensures j < n <==> Served(run, j) {
      if Served(run, j) && j >= n { ServedIsPrefix(run, n, j); }
    }
  }

  /** The run as an instance of the timing argument. */
  lemma TimingOf(c: Config, run: seq<Signals>) returns (due: seq<nat>, gone: seq<nat>)
    requires c.space > 0
    requires DepthSuffices(c, run)
    ensures |gone| == |run| + 1
    ensures forall j: nat :: j < |due| <==> Served(run, j)
    ensures forall j | 0 <= j < |due| :: due[j] == DueCycle(run, j)
    ensures forall t | 0 <= t <= |run| :: gone[t] == Reported(c, run, t)
    ensures forall t | 0 <= t <= |run| :: OnTime(due, gone, t)
  {
    var n := ServedPrefixLength(run);
    var avail := seq(n, j requires 0 <= j < n => AvailableCycle(run, j));
    due := seq(n, j requires 0 <= j < n => DueCycle(run, j));
    gone := seq(|run| + 1, t requires 0 <= t <= |run| => Reported(c, run, t));
    var due', gone' := due, gone;
    IsGreedy(c, run, avail, due, gone);
    forall t | 0 <= t <= |run| ensures OnTime(due', gone', t) {
      GreedyIsOnTime(avail, due', gone', t);
    }
  }

  lemma DueStepOf(run: seq<Signals>, avail: seq<nat>, due: seq<nat>, j: nat)
    requires j < |avail| == |due| && Served(run, j)
    requires avail[j] == AvailableCycle(run, j) && due[j] == DueCycle(run, j)
    requires j > 0 ==> Served(run, j - 1) && due[j - 1] == DueCycle(run, j - 1)
    ensures DueStep(avail, due, j)
  {
  }

  lemma IsGreedy(c: Config, run: seq<Signals>, avail: seq<nat>, due: seq<nat>, gone: seq<nat>)
    requires c.space > 0 && DepthSuffices(c, run)
    requires |avail| == |due| && |gone| == |run| + 1
    requires forall j: nat :: j < |due| <==> Served(run, j)
    requires forall j | 0 <= j < |due| :: avail[j] == AvailableCycle(run, j) && due[j] == DueCycle(run, j)
    requires forall t | 0 <= t <= |run| :: gone[t] == Reported(c, run, t)
    ensures Greedy(avail, due, gone)
  {
    forall j | 0 <= j < |due| ensures DueStep(avail, due, j) {
      DueStepOf(run, avail, due, j);
    }
    forall u | 0 <= u < |run| ensures GoneStep(avail, gone, u) {
      GoneStepOf(c, run, avail, gone, u);
    }
  }

  lemma ReportedWhenDue(c: Config, run: seq<Signals>, j: nat)
    requires c.space > 0
    requires DepthSuffices(c, run)
    requires Served(run, j) && DueCycle(run, j) < |run|
    ensures ReportAt(c, run, DueCycle(run, j)) == Some(DueBeat(c, run, j))
  {
    var due, gone := TimingOf(c, run);
    assert OnTime(due, gone, |run|);
    if j >= gone[|run|] { DueIncreases(run, gone[|run|], j); }
    var t := due[j];
    assert gone[t + 1] == Reported(c, run, t + 1);
    QueuesThroughout(c, run, t);
    ReportIs(c, run, t, j);
  }

  lemma DueWhenReported(c: Config, run: seq<Signals>, t: nat)
    requires c.space > 0 && t < |run|
    requires DepthSuffices(c, run)
    requires ReportAt(c, run, t).Some?
    ensures exists j :: Served(run, j) && DueCycle(run, j) == t
  {
    var due, gone := TimingOf(c, run);
    assert OnTime(due, gone, t) && OnTime(due, gone, t + 1);
    assert gone[t + 1] == Reported(c, run, t + 1);
    var j := gone[t];
    assert due[j] == t;
    assert Served(run, j) && DueCycle(run, j) == t;
  }

  /** Beats are due in bus order, at most one per cycle. */
  lemma {:induction false} DueIncreases(run: seq<Signals>, i: nat, j: nat)
    requires i <= j && Served(run, j)
    ensures Served(run, i)
    ensures DueCycle(run, i) + (j - i) <= DueCycle(run, j)
    decreases j
  {
    if i < j {
      ServedBefore(run, j);
      DueIncreases(run, i, j - 1);
    }
  }
}
