/**
 The guessed write responses: the assumption made at a B transfer says exactly that every
 guess was right, it never excludes a behaviour of the bus, and the response attached to the
 beats of a burst is therefore the one that its B transfer brings later.
 */
module AxiProphecy {
  import opened Options
  import opened Events
  import opened AxiWrite
  import opened AxiSchedule
  import Fifo

  /** The assumption `out_bresp == axi_bresp` holds throughout. */
  ghost predicate GuessesConfirmed(c: Config, run: seq<Signals>)
    requires c.space > 0
  {
    forall t | 0 <= t < |run| :: GuessOk(After(c, run[..t]), run[t])
  }

  /** The assertion `unexpected_B_transfer` holds throughout. */
  ghost predicate ResponsesExpected(c: Config, run: seq<Signals>)
    requires c.space > 0
  {
    forall t | 0 <= t < |run| :: ResponseOk(After(c, run[..t]), run[t])
  }

  function BEvents(run: seq<Signals>): seq<Option<nat>> {
    seq(|run|, t requires 0 <= t < |run| => if run[t].bTransfer then Some(run[t].bresp) else None)
  }

  /** The run as the FIFO of guesses sees it. */
  function GuessCycles(run: seq<Signals>): seq<Fifo.Cycle<nat>> {
    seq(|run|, t requires 0 <= t < |run| => Fifo.Cycle(run[t].awTransfer, run[t].guess, run[t].bTransfer))
  }

  function Responses(run: seq<Signals>): seq<nat> {
    seq(|run|, t requires 0 <= t < |run| => run[t].bresp)
  }

  // The argument about the FIFO of guesses, for any FIFO whose outputs are compared with `responses`.

  function Visible(depth: nat, cycles: seq<Fifo.Cycle<nat>>, t: nat): seq<nat>
    requires t < |cycles|
  {
    var q := Fifo.QueueAfter(depth, cycles[..t]);
    if cycles[t].inValid then q + [cycles[t].inData] else q
  }

  /** Whatever leaves the FIFO in a cycle is the response of that cycle. */
  ghost predicate Matches(depth: nat, cycles: seq<Fifo.Cycle<nat>>, responses: seq<nat>)
    requires |responses| == |cycles|
  {
    forall t | 0 <= t < |cycles| ::
      cycles[t].outReady && Visible(depth, cycles, t) != [] ==> Visible(depth, cycles, t)[0] == responses[t]
  }

  /** The responses of the cycles in which something leaves the FIFO. */
  function Confirmations(depth: nat, cycles: seq<Fifo.Cycle<nat>>, responses: seq<nat>): seq<nat>
    requires |responses| == |cycles|
  {
    if cycles == [] then []
    else
      var n := |cycles| - 1;
      Confirmations(depth, cycles[..n], responses[..n])
      + if cycles[n].outReady && Visible(depth, cycles, n) != [] then [responses[n]] else []
  }

  lemma MatchesPrefix(depth: nat, cycles: seq<Fifo.Cycle<nat>>, responses: seq<nat>)
    requires |responses| == |cycles| > 0
    ensures var n := |cycles| - 1;
            Matches(depth, cycles, responses) <==>
              && Matches(depth, cycles[..n], responses[..n])
              && (cycles[n].outReady && Visible(depth, cycles, n) != [] ==>
                    Visible(depth, cycles, n)[0] == responses[n])
  {
    var n := |cycles| - 1;
    forall t | 0 <= t < n ensures Visible(depth, cycles[..n], t) == Visible(depth, cycles, t) {
      assert cycles[..n][..t] == cycles[..t];
    }
  }

  lemma {:induction false} MatchesIffEqual(depth: nat, cycles: seq<Fifo.Cycle<nat>>, responses: seq<nat>)
    requires |responses| == |cycles|
    ensures |Fifo.Left(depth, cycles)| == |Confirmations(depth, cycles, responses)|
    ensures Matches(depth, cycles, responses) <==>
              Fifo.Left(depth, cycles) == Confirmations(depth, cycles, responses)
  {
    if cycles != [] {
      var n := |cycles| - 1;
      MatchesIffEqual(depth, cycles[..n], responses[..n]);
      MatchesPrefix(depth, cycles, responses);
      var left := Fifo.Left(depth, cycles[..n]);
      var conf := Confirmations(depth, cycles[..n], responses[..n]);
      if cycles[n].outReady && Visible(depth, cycles, n) != [] {
        assert Fifo.Left(depth, cycles) == left + [Visible(depth, cycles, n)[0]];
        assert Confirmations(depth, cycles, responses) == conf + [responses[n]];
        AppendEqual(left, conf, Visible(depth, cycles, n)[0], responses[n]);
      } else {
        assert Fifo.Left(depth, cycles) == left;
        assert Confirmations(depth, cycles, responses) == conf;
      }
    }
  }

  lemma AppendEqual(a: seq<nat>, b: seq<nat>, x: nat, y: nat)
    requires |a| == |b|
    ensures a + [x] == b + [y] <==> a == b && x == y
  {
    if a + [x] == b + [y] {
      assert a == (a + [x])[..|a|] == (b + [y])[..|b|] == b;
      assert x == (a + [x])[|a|] == (b + [y])[|b|] == y;
    }
  }

  /** The FIFO of guesses is the queue of the abstract run. */
  lemma {:induction false} GuessQueue(c: Config, run: seq<Signals>, t: nat)
    requires c.space > 0 && t <= |run|
    ensures After(c, run[..t]).guesses == Fifo.QueueAfter(c.depth, GuessCycles(run)[..t])
  {
    if t > 0 {
      GuessQueue(c, run, t - 1);
      AfterStep(c, run, t - 1);
      var cycles := GuessCycles(run)[..t];
      assert cycles[..t - 1] == GuessCycles(run)[..t - 1];
    }
  }

  lemma VisibleGuesses(c: Config, run: seq<Signals>, t: nat)
    requires c.space > 0 && t < |run|
    ensures GuessVisible(After(c, run[..t]), run[t]) == Visible(c.depth, GuessCycles(run), t)
  {
    GuessQueue(c, run, t);
  }

  /** The assumption holds exactly when the guesses taken out are the responses that took them out. */
  lemma ConfirmedIffEqual(c: Config, run: seq<Signals>)
    requires c.space > 0
    ensures GuessesConfirmed(c, run) <==>
              Fifo.Left(c.depth, GuessCycles(run)) == Confirmations(c.depth, GuessCycles(run), Responses(run))
  {
    var cycles := GuessCycles(run);
    MatchesIffEqual(c.depth, cycles, Responses(run));
    forall t | 0 <= t < |run|
      ensures GuessOk(After(c, run[..t]), run[t]) <==>
                (cycles[t].outReady && Visible(c.depth, cycles, t) != [] ==>
                   Visible(c.depth, cycles, t)[0] == Responses(run)[t])
    {
      VisibleGuesses(c, run, t);
    }
  }

  // ----------------------------------------------------------------------------------
  // The assumption excludes nothing
  // ----------------------------------------------------------------------------------

  /** The same bus behaviour with other guesses. */
  function WithGuesses(run: seq<Signals>, guesses: seq<nat>): seq<Signals>
    requires |guesses| == |run|
  {
    seq(|run|, t requires 0 <= t < |run| => run[t].(guess := guesses[t]))
  }

  /** The FIFO run with other data on its input. */
  function WithData(cycles: seq<Fifo.Cycle<nat>>, data: seq<nat>): seq<Fifo.Cycle<nat>>
    requires |data| == |cycles|
  {
    seq(|cycles|, t requires 0 <= t < |cycles| => cycles[t].(inData := data[t]))
  }

  lemma SameShape(q: seq<nat>, q': seq<nat>, depth: nat, inValid: bool, x: nat, x': nat, outReady: bool)
    requires |q| == |q'|
    ensures Fifo.Accepts(q, depth, outReady) == Fifo.Accepts(q', depth, outReady)
    ensures |Fifo.QueueNext(q, depth, inValid, x, outReady)| == |Fifo.QueueNext(q', depth, inValid, x', outReady)|
  {
  }

  /** Occupancy and counts of a FIFO do not depend on the data. */
  lemma {:induction false} ShapeOnly(depth: nat, cycles: seq<Fifo.Cycle<nat>>, data: seq<nat>, t: nat)
    requires |data| == |cycles| && t <= |cycles|
    ensures |Fifo.QueueAfter(depth, cycles[..t])| == |Fifo.QueueAfter(depth, WithData(cycles, data)[..t])|
    ensures |Fifo.Entered(depth, cycles[..t])| == |Fifo.Entered(depth, WithData(cycles, data)[..t])|
  {
    if t > 0 {
      var other, u := WithData(cycles, data), t - 1;
      ShapeOnly(depth, cycles, data, u);
      assert cycles[..t][..u] == cycles[..u] && cycles[..t][u] == cycles[u];
      assert other[..t][..u] == other[..u] && other[..t][u] == other[u];
      var q, q' := Fifo.QueueAfter(depth, cycles[..u]), Fifo.QueueAfter(depth, other[..u]);
      SameShape(q, q', depth, cycles[u].inValid, cycles[u].inData, other[u].inData, cycles[u].outReady);
    }
  }

  lemma {:induction false} ConfirmationsUnchanged(depth: nat, cycles: seq<Fifo.Cycle<nat>>, responses: seq<nat>,
                                                  data: seq<nat>, t: nat)
    requires |data| == |cycles| == |responses| && t <= |cycles|
    ensures Confirmations(depth, WithData(cycles, data)[..t], responses[..t])
            == Confirmations(depth, cycles[..t], responses[..t])
  {
    if t > 0 {
      ConfirmationsUnchanged(depth, cycles, responses, data, t - 1);
      var other := WithData(cycles, data);
      assert responses[..t][..t - 1] == responses[..t - 1];
      assert cycles[..t][..t - 1] == cycles[..t - 1];
      assert other[..t][..t - 1] == other[..t - 1];
      ShapeOnly(depth, cycles, data, t - 1);
    }
  }

  /** The right data for cycle `t`: the response that will take that entry out again. */
  function Foreseen(depth: nat, cycles: seq<Fifo.Cycle<nat>>, responses: seq<nat>): seq<nat>
    requires |responses| == |cycles|
  {
    var conf := Confirmations(depth, cycles, responses);
    seq(|cycles|, t requires 0 <= t < |cycles| =>
      var entry := |Fifo.Entered(depth, cycles[..t])|;
      if entry < |conf| then conf[entry] else 0)
  }

  lemma {:induction false} ForeseenEntries(depth: nat, cycles: seq<Fifo.Cycle<nat>>, responses: seq<nat>, t: nat)
    requires |responses| == |cycles| && t <= |cycles|
    ensures var entered := Fifo.Entered(depth, WithData(cycles, Foreseen(depth, cycles, responses))[..t]);
            var conf := Confirmations(depth, cycles, responses);
            forall e | 0 <= e < |entered| && e < |conf| :: entered[e] == conf[e]
  {
    if t > 0 {
      ForeseenEntries(depth, cycles, responses, t - 1);
      var other := WithData(cycles, Foreseen(depth, cycles, responses));
      assert other[..t][..t - 1] == other[..t - 1];
      ShapeOnly(depth, cycles, Foreseen(depth, cycles, responses), t - 1);
    }
  }

  lemma ForeseenMatches(depth: nat, cycles: seq<Fifo.Cycle<nat>>, responses: seq<nat>)
    requires |responses| == |cycles|
    ensures Matches(depth, WithData(cycles, Foreseen(depth, cycles, responses)), responses)
  {
    var data := Foreseen(depth, cycles, responses);
    var other := WithData(cycles, data);
    ConfirmationsUnchanged(depth, cycles, responses, data, |cycles|);
    ForeseenEntries(depth, cycles, responses, |cycles|);
    assert other[..|cycles|] == other && cycles[..|cycles|] == cycles && responses[..|cycles|] == responses;
    MatchesIffEqual(depth, other, responses);
    Fifo.Conservation(depth, other);
    var left, entered := Fifo.Left(depth, other), Fifo.Entered(depth, other);
    forall k | 0 <= k < |left| ensures left[k] == Confirmations(depth, other, responses)[k] {
      assert left[k] == (left + Fifo.QueueAfter(depth, other))[k] == entered[k];
    }
  }

  /** Two states of the observer that differ in guesses only. */
  ghost predicate SameButGuesses(a: State, b: State) {
    && |a.aws| == |b.aws| && (forall k | 0 <= k < |a.aws| :: a.aws[k].aw == b.aws[k].aw)
    && a.ws == b.ws && |a.guesses| == |b.guesses|
    && a.counter == b.counter && a.offset == b.offset
  }

  /**
   The assertions of a cycle come out the same in both, and the same beat is reported, which is
   what the assertions on lengths, burst types and strobes look at.
   */
  ghost predicate SameAssertions(c: Config, a: State, s: Signals, b: State, s': Signals) {
    && Report(a, s).Some? == Report(b, s').Some?
    && (Report(a, s).Some? ==>
          var x, y := Report(a, s).value, Report(b, s').value;
          x.tagged.aw == y.tagged.aw && x.w == y.w && x.counter == y.counter && x.offset == y.offset)
    && (DepthOk(c, a, s) <==> DepthOk(c, b, s'))
    && (LastOk(a, s) <==> LastOk(b, s'))
    && (ResponseOk(a, s) <==> ResponseOk(b, s'))
  }

  lemma GuessesDoNotMatter(c: Config, a: State, s: Signals, b: State, s': Signals)
    requires c.space > 0 && SameButGuesses(a, b) && s' == s.(guess := s'.guess)
    ensures SameAssertions(c, a, s, b, s')
    ensures SameButGuesses(Next(c, a, s), Next(c, b, s'))
  {
    var aws, aws' := AwVisible(a, s), AwVisible(b, s');
    assert |aws| == |aws'| && forall k | 0 <= k < |aws| :: aws[k].aw == aws'[k].aw;
  }

  lemma {:induction false} GuessesNeverMatter(c: Config, run: seq<Signals>, guesses: seq<nat>, t: nat)
    requires c.space > 0 && |guesses| == |run| && t <= |run|
    ensures SameButGuesses(After(c, run[..t]), After(c, WithGuesses(run, guesses)[..t]))
  {
    if t > 0 {
      var u, run' := t - 1, WithGuesses(run, guesses);
      GuessesNeverMatter(c, run, guesses, u);
      GuessesDoNotMatter(c, After(c, run[..u]), run[u], After(c, run'[..u]), run'[u]);
      AfterStep(c, run, u);
      AfterStep(c, run', u);
      assert u + 1 == t;
    }
  }

  /**
   Whatever the bus does, some guesses satisfy the assumption, and with them every assertion comes
   out as it does with any others: the assumption cannot hide an error of the signalling, not even
   one that makes a FIFO overflow.
   */
  lemma GuessesExist(c: Config, run: seq<Signals>)
    requires c.space > 0
    ensures exists guesses: seq<nat> ::
              && |guesses| == |run| && GuessesConfirmed(c, WithGuesses(run, guesses))
              && forall t | 0 <= t < |run| ::
                   SameAssertions(c, After(c, run[..t]), run[t],
                                  After(c, WithGuesses(run, guesses)[..t]), WithGuesses(run, guesses)[t])
  {
    var guesses := Foreseen(c.depth, GuessCycles(run), Responses(run));
    ForeseenConfirmed(c, run, guesses);
    forall t | 0 <= t < |run|
      ensures SameAssertions(c, After(c, run[..t]), run[t],
                             After(c, WithGuesses(run, guesses)[..t]), WithGuesses(run, guesses)[t])
    {
      GuessesNeverMatter(c, run, guesses, t);
      GuessesDoNotMatter(c, After(c, run[..t]), run[t],
                         After(c, WithGuesses(run, guesses)[..t]), WithGuesses(run, guesses)[t]);
    }
  }

  lemma ForeseenConfirmed(c: Config, run: seq<Signals>, guesses: seq<nat>)
    requires c.space > 0 && guesses == Foreseen(c.depth, GuessCycles(run), Responses(run))
    ensures |guesses| == |run| && GuessesConfirmed(c, WithGuesses(run, guesses))
  {
    var run' := WithGuesses(run, guesses);
    ForeseenMatches(c.depth, GuessCycles(run), Responses(run));
    assert GuessCycles(run') == WithData(GuessCycles(run), guesses);
    assert Responses(run') == Responses(run);
    MatchesIffEqual(c.depth, GuessCycles(run'), Responses(run'));
    ConfirmedIffEqual(c, run');
  }

  // ----------------------------------------------------------------------------------
  // The assumption makes every guess right
  // ----------------------------------------------------------------------------------

  /** The guesses of the AW transfers, in bus order. */
  function Guesses(aws: seq<Tagged>): seq<nat> {
    seq(|aws|, k requires 0 <= k < |aws| => aws[k].guess)
  }

  /** Appending a cycle appends at most one entry. */
  lemma EnteredStep(depth: nat, cycles: seq<Fifo.Cycle<nat>>, t: nat)
    requires t < |cycles|
    ensures Fifo.Entered(depth, cycles[..t + 1])
            == Fifo.Entered(depth, cycles[..t])
               + if cycles[t].inValid && Fifo.Accepts(Fifo.QueueAfter(depth, cycles[..t]), depth, cycles[t].outReady)
                 then [cycles[t].inData] else []
  {
    assert cycles[..t + 1][..t] == cycles[..t];
  }

  lemma GuessesStep(run: seq<Signals>, t: nat)
    requires t < |run|
    ensures Guesses(Payloads(AwEvents(run)[..t + 1]))
            == Guesses(Payloads(AwEvents(run)[..t])) + if run[t].awTransfer then [run[t].guess] else []
  {
    assert AwEvents(run)[..t + 1][..t] == AwEvents(run)[..t];
  }

  lemma {:induction false} AllGuessesEnter(c: Config, run: seq<Signals>, t: nat)
    requires c.space > 0 && t <= |run|
    requires DepthSuffices(c, run)
    ensures Fifo.Entered(c.depth, GuessCycles(run)[..t]) == Guesses(Payloads(AwEvents(run)[..t]))
  {
    if t > 0 {
      var u := t - 1;
      AllGuessesEnter(c, run, u);
      GuessQueue(c, run, u);
      EnteredStep(c.depth, GuessCycles(run), u);
      GuessesStep(run, u);
      assert DepthOk(c, After(c, run[..u]), run[u]);
      assert u + 1 == t;
    }
  }

  lemma ConfirmationsStep(depth: nat, cycles: seq<Fifo.Cycle<nat>>, responses: seq<nat>, t: nat)
    requires |responses| == |cycles| && t < |cycles|
    ensures Confirmations(depth, cycles[..t + 1], responses[..t + 1])
            == Confirmations(depth, cycles[..t], responses[..t])
               + if cycles[t].outReady && Visible(depth, cycles, t) != [] then [responses[t]] else []
  {
    assert cycles[..t + 1][..t] == cycles[..t] && responses[..t + 1][..t] == responses[..t];
  }

  lemma ResponsesStep(run: seq<Signals>, t: nat)
    requires t < |run|
    ensures Payloads(BEvents(run)[..t + 1])
            == Payloads(BEvents(run)[..t]) + if run[t].bTransfer then [run[t].bresp] else []
  {
    assert BEvents(run)[..t + 1][..t] == BEvents(run)[..t];
  }

  lemma {:induction false} AllResponsesConfirm(c: Config, run: seq<Signals>, t: nat)
    requires c.space > 0 && t <= |run|
    requires ResponsesExpected(c, run)
    ensures Confirmations(c.depth, GuessCycles(run)[..t], Responses(run)[..t]) == Payloads(BEvents(run)[..t])
  {
    if t > 0 {
      var u := t - 1;
      AllResponsesConfirm(c, run, u);
      VisibleGuesses(c, run, u);
      ConfirmationsStep(c.depth, GuessCycles(run), Responses(run), u);
      ResponsesStep(run, u);
      assert ResponseOk(After(c, run[..u]), run[u]);
      assert u + 1 == t;
    }
  }

  /** What has left the FIFO of guesses are the first guesses, and what it was compared with are all responses. */
  lemma LeftAndConfirmed(c: Config, run: seq<Signals>)
    requires c.space > 0
    requires DepthSuffices(c, run) && ResponsesExpected(c, run)
    ensures Fifo.Left(c.depth, GuessCycles(run)) <= Guesses(Payloads(AwEvents(run)))
    ensures Confirmations(c.depth, GuessCycles(run), Responses(run)) == Payloads(BEvents(run))
  {
    var cycles := GuessCycles(run);
    AllGuessesEnter(c, run, |run|);
    AllResponsesConfirm(c, run, |run|);
    assert cycles[..|run|] == cycles && Responses(run)[..|run|] == Responses(run);
    assert AwEvents(run)[..|run|] == AwEvents(run) && BEvents(run)[..|run|] == BEvents(run);
    Fifo.Conservation(c.depth, cycles);
  }

  lemma PrefixEqualIff(left: seq<nat>, aws: seq<Tagged>, bs: seq<nat>)
    requires left <= Guesses(aws) && |left| == |bs|
    ensures left == bs <==> forall k | 0 <= k < |bs| :: aws[k].guess == bs[k]
  {
    forall k | 0 <= k < |left| ensures left[k] == aws[k].guess {
      assert left[k] == Guesses(aws)[k];
    }
  }

  /** With room in the FIFO and no unexpected response, the assumption says: guess k is response k. */
  lemma Prophecy(c: Config, run: seq<Signals>)
    requires c.space > 0
    requires DepthSuffices(c, run) && ResponsesExpected(c, run)
    ensures |Payloads(BEvents(run))| <= |Payloads(AwEvents(run))|
    ensures GuessesConfirmed(c, run) <==>
              forall k | 0 <= k < |Payloads(BEvents(run))| ::
                Payloads(AwEvents(run))[k].guess == Payloads(BEvents(run))[k]
  {
    var left := Fifo.Left(c.depth, GuessCycles(run));
    ConfirmedIffEqual(c, run);
    MatchesIffEqual(c.depth, GuessCycles(run), Responses(run));
    LeftAndConfirmed(c, run);
    PrefixEqualIff(left, Payloads(AwEvents(run)), Payloads(BEvents(run)));
  }

  /** Every reported beat of burst k carries the response of the k-th B transfer. */
  lemma ResponseOfEveryBeat(c: Config, run: seq<Signals>, t: nat)
    requires c.space > 0 && t < |run|
    requires DepthSuffices(c, run) && ResponsesExpected(c, run) && GuessesConfirmed(c, run)
    requires ReportAt(c, run, t).Some?
    ensures var ws, bs := Payloads(WEvents(run)), Payloads(BEvents(run));
            exists j :: Served(run, j) && DueCycle(run, j) == t
              && (BurstOf(ws, j) < |bs| ==> ReportAt(c, run, t).value.tagged.guess == bs[BurstOf(ws, j)])
  {
    Schedule(c, run);
    Prophecy(c, run);
    var j :| Served(run, j) && DueCycle(run, j) == t;
  }

  // ----------------------------------------------------------------------------------
  // The shape of bursts
  // ----------------------------------------------------------------------------------

  /** The assertion `out_wlast == (burst_counter == out_awlen)` holds throughout. */
  ghost predicate LastFlagsFit(c: Config, run: seq<Signals>)
    requires c.space > 0
  {
    forall t | 0 <= t < |run| :: LastOk(After(c, run[..t]), run[t])
  }

  lemma LastFlagOfReport(st: State, s: Signals)
    requires LastOk(st, s) && Report(st, s).Some?
    ensures var beat := Report(st, s).value; beat.w.last <==> beat.counter == beat.tagged.aw.len
  {
  }

  /** The argument on the logs alone: positions stay below the announced length. */
  lemma PositionsFit(c: Config, aws: seq<Tagged>, ws: seq<WriteData>, j: nat)
    requires c.space > 0 && j < |ws| && BurstOf(ws, j) < |aws|
    requires forall k | 0 <= k < |aws| :: aws[k].aw.len < 256
    requires j > 0 ==> BurstOf(ws, j - 1) < |aws|
    requires j > 0 ==> var before := BeatOf(c, aws, ws, j - 1);
                       && BeatInBurst(ws, j - 1) <= before.tagged.aw.len
                       && (before.w.last <==> BeatInBurst(ws, j - 1) == before.tagged.aw.len)
    ensures BeatInBurst(ws, j) <= BeatOf(c, aws, ws, j).tagged.aw.len
    ensures BeatOf(c, aws, ws, j).counter == BeatInBurst(ws, j)
  {
  }

  /**
   When the assertion on `wlast` holds, the 8-bit burst counter never wraps: every reported
   beat carries its true position in the burst, and a burst ends exactly at position `awlen`.
   */
  lemma {:induction false} BurstShape(c: Config, run: seq<Signals>, j: nat)
    requires c.space > 0
    requires DepthSuffices(c, run) && LastFlagsFit(c, run)
    requires Served(run, j) && DueCycle(run, j) < |run|
    requires forall k | 0 <= k < |Payloads(AwEvents(run))| :: Payloads(AwEvents(run))[k].aw.len < 256
    ensures var ws, beat := Payloads(WEvents(run)), DueBeat(c, run, j);
            && ReportAt(c, run, DueCycle(run, j)) == Some(beat)
            && beat.counter == BeatInBurst(ws, j) <= beat.tagged.aw.len
            && (beat.w.last <==> BeatInBurst(ws, j) == beat.tagged.aw.len)
  {
    var t := DueCycle(run, j);
    ReportedWhenDue(c, run, j);
    assert LastOk(After(c, run[..t]), run[t]);
    LastFlagOfReport(After(c, run[..t]), run[t]);
    if j > 0 {
      DueIncreases(run, j - 1, j);
      BurstShape(c, run, j - 1);
    }
    PositionsFit(c, Payloads(AwEvents(run)), Payloads(WEvents(run)), j);
  }

  /** Beat `j` of the logs ends its burst exactly at the announced length. */
  predicate EndsAtLength(aws: seq<Tagged>, ws: seq<WriteData>, j: nat)
    requires j < |ws| && BurstOf(ws, j) < |aws|
  {
    ws[j].last <==> BeatInBurst(ws, j) == aws[BurstOf(ws, j)].aw.len
  }

  /** As long as bursts end at their announced length, no position goes beyond it. */
  lemma {:induction false} PositionsStayBelow(aws: seq<Tagged>, ws: seq<WriteData>, j: nat)
    requires j < |ws| && BurstOf(ws, j) < |aws|
    requires forall i: nat | i < j && BurstOf(ws, i) < |aws| :: EndsAtLength(aws, ws, i)
    ensures BeatInBurst(ws, j) <= aws[BurstOf(ws, j)].aw.len
  {
    if j > 0 {
      PositionsStayBelow(aws, ws, j - 1);
      assert EndsAtLength(aws, ws, j - 1);
    }
  }

  /** Up to beat `j`, every beat with an address ends its burst at the announced length. */
  ghost predicate EndUpTo(aws: seq<Tagged>, ws: seq<WriteData>, j: nat)
    requires j < |ws|
  {
    forall i: nat | i <= j && BurstOf(ws, i) < |aws| :: EndsAtLength(aws, ws, i)
  }

  ghost predicate ShortBursts(aws: seq<Tagged>) {
    forall k | 0 <= k < |aws| :: aws[k].aw.len < 256
  }

  lemma LastFlagOk(c: Config, aws: seq<Tagged>, ws: seq<WriteData>, j: nat, st: State, s: Signals)
    requires c.space > 0 && j < |ws| && BurstOf(ws, j) < |aws|
    requires ShortBursts(aws) && EndUpTo(aws, ws, j)
    requires Report(st, s) == Some(BeatOf(c, aws, ws, j))
    ensures LastOk(st, s)
  {
    PositionsStayBelow(aws, ws, j);
    assert EndsAtLength(aws, ws, j);
    assert aws[BurstOf(ws, j)].aw.len < 256;
  }

  /** Every beat that is due within the run ends its burst at the announced length. */
  ghost predicate BeatsEndAtLength(run: seq<Signals>) {
    forall j: nat | Served(run, j) && DueCycle(run, j) < |run| ::
      EndsAtLength(Payloads(AwEvents(run)), Payloads(WEvents(run)), j)
  }

  lemma DueLastFlagOk(c: Config, run: seq<Signals>, t: nat, j: nat)
    requires c.space > 0 && t < |run| && DepthSuffices(c, run)
    requires ShortBursts(Payloads(AwEvents(run))) && BeatsEndAtLength(run)
    requires Served(run, j) && DueCycle(run, j) == t
    ensures LastOk(After(c, run[..t]), run[t])
  {
    ReportedWhenDue(c, run, j);
    forall i: nat | i <= j && Served(run, i)
      ensures EndsAtLength(Payloads(AwEvents(run)), Payloads(WEvents(run)), i)
    {
      DueIncreases(run, i, j);
    }
    LastFlagOk(c, Payloads(AwEvents(run)), Payloads(WEvents(run)), j, After(c, run[..t]), run[t]);
  }

  /**
   The assertion on `wlast`, on the logs alone: it holds throughout if and only if every beat
   reported in the run is marked last exactly at position `awlen` of its burst.
   */
  lemma LastFlagsMeaning(c: Config, run: seq<Signals>)
    requires c.space > 0 && DepthSuffices(c, run)
    requires ShortBursts(Payloads(AwEvents(run)))
    ensures LastFlagsFit(c, run) <==> BeatsEndAtLength(run)
  {
    if LastFlagsFit(c, run) {
      forall j: nat | Served(run, j) && DueCycle(run, j) < |run|
        ensures EndsAtLength(Payloads(AwEvents(run)), Payloads(WEvents(run)), j)
      {
        BurstShape(c, run, j);
      }
    }
    if BeatsEndAtLength(run) {
      forall t | 0 <= t < |run| ensures LastOk(After(c, run[..t]), run[t]) {
        if ReportAt(c, run, t).Some? {
          DueWhenReported(c, run, t);
          var j: nat :| Served(run, j) && DueCycle(run, j) == t;
          DueLastFlagOk(c, run, t, j);
        }
      }
    }
  }
}
