/**
 What the reorder buffer guarantees on every run, whatever arrives: without a 61xxx code
 the released packets carry the orders 0, 1, 2, ... and each of them entered earlier.
 */
module RobOrder {
  import opened Interface
  import opened Options
  import opened Powers
  import opened Rob

  /** A packet was presented on some channel in some clock of the run. */
  ghost predicate Arrived<D(!new)>(run: seq<seq<Option<Slot<D>>>>, p: Slot<D>) {
    exists t, c | 0 <= t < |run| && 0 <= c < |run[t]| :: run[t][c] == Some(p)
  }

  /** An occupied slot holds a packet that arrived, stored under its own index. */
  ghost predicate Genuine<D(!new)>(s: State<D>, run: seq<seq<Option<Slot<D>>>>)
    requires |s.buffer| == |s.valid|
  {
    forall i | 0 <= i < |s.valid| && s.valid[i] :: Arrived(run, s.buffer[i])
  }

  lemma {:induction false} StoredFrom<D>(buffer: seq<Slot<D>>, valid: seq<bool>, ins: seq<Option<Slot<D>>>, i: nat)
    requires |buffer| == |valid| > 0 && i < |valid|
    requires InsertValid(valid, ins)[i]
    ensures (valid[i] && InsertBuffer(buffer, ins)[i] == buffer[i])
            || exists c | 0 <= c < |ins| :: ins[c] == Some(InsertBuffer(buffer, ins)[i])
  {
    if ins != [] {
      var before, last := ins[..|ins| - 1], ins[|ins| - 1];
      if last.Some? && last.value.order % |valid| == i {
        assert ins[|ins| - 1] == Some(InsertBuffer(buffer, ins)[i]);
      } else {
        StoredFrom(buffer, valid, before, i);
        if c :| 0 <= c < |before| && before[c] == Some(InsertBuffer(buffer, before)[i]) {
          assert ins[c] == before[c];
        }
      }
    }
  }

  lemma {:induction false} ClearedOnly(valid: seq<bool>, cursor: nat, d: nat, i: nat)
    requires i < |valid|
    requires ClearValid(valid, cursor, d)[i]
    ensures valid[i]
  {
    if d > 0 { ClearedOnly(valid, cursor, d - 1, i); }
  }

  lemma {:induction false} DrainedSlotsValid(valid: seq<bool>, cursor: nat, n: nat, k: nat)
    requires valid != [] && k < DrainCount(valid, cursor, n)
    ensures valid[SlotOf(cursor, k, |valid|)]
  {
    if n > 0 && k < DrainCount(valid, cursor, n - 1) { DrainedSlotsValid(valid, cursor, n - 1, k); }
  }

  lemma ArrivedLater<D(!new)>(run: seq<seq<Option<Slot<D>>>>, ins: seq<Option<Slot<D>>>, p: Slot<D>)
    requires Arrived(run, p) || exists c | 0 <= c < |ins| :: ins[c] == Some(p)
    ensures Arrived(run + [ins], p)
  {
    var all := run + [ins];
    if Arrived(run, p) {
      var t, c :| 0 <= t < |run| && 0 <= c < |run[t]| && run[t][c] == Some(p);
      assert all[t][c] == Some(p);
    } else {
      var c :| 0 <= c < |ins| && ins[c] == Some(p);
      assert all[|run|][c] == Some(p);
    }
  }

  lemma GenuineStep<D(!new)>(s: State<D>, run: seq<seq<Option<Slot<D>>>>, ins: seq<Option<Slot<D>>>)
    requires |s.buffer| == |s.valid| > 0 && |s.out| == |ins|
    requires Genuine(s, run)
    ensures Genuine(Next(s, false, ins), run + [ins])
  {
    var s' := Next(s, false, ins);
    forall i | 0 <= i < |s'.valid| && s'.valid[i] ensures Arrived(run + [ins], s'.buffer[i]) {
      ClearedOnly(InsertValid(s.valid, ins), s.cursor, DrainCount(s.valid, s.cursor, |ins|), i);
      StoredFrom(s.buffer, s.valid, ins, i);
      ArrivedLater(run, ins, s'.buffer[i]);
    }
  }

  lemma {:induction false} GenuineThroughout<D(!new)>(powerUp: seq<Slot<D>>, channels: nat, run: seq<seq<Option<Slot<D>>>>)
    requires powerUp != [] && Run(channels, run)
    ensures Genuine(After(powerUp, channels, run), run)
  {
    if run != [] {
      var before := run[..|run| - 1];
      GenuineThroughout(powerUp, channels, before);
      GenuineStep(After(powerUp, channels, before), before, run[|run| - 1]);
      assert before + [run[|run| - 1]] == run;
    }
  }

  /** A packet released by a clock entered in a strictly earlier clock, unchanged. */
  lemma ReleasedArrivedEarlier<D(!new)>(powerUp: seq<Slot<D>>, channels: nat, run: seq<seq<Option<Slot<D>>>>, c: nat)
    requires powerUp != [] && Run(channels, run) && run != [] && c < channels
    requires After(powerUp, channels, run).out[c].Some?
    ensures Arrived(run[..|run| - 1], After(powerUp, channels, run).out[c].value)
  {
    var before := run[..|run| - 1];
    var s := After(powerUp, channels, before);
    GenuineThroughout(powerUp, channels, before);
    DrainedSlotsValid(s.valid, s.cursor, channels, c);
    assert s.valid[SlotOf(s.cursor, c, |s.valid|)];
  }

  lemma {:induction false} PacketFromChannel<D(!new)>(out: seq<Option<Slot<D>>>, k: nat) returns (c: nat)
    requires k < |Packets(out)|
    ensures c < |out| && out[c] == Some(Packets(out)[k])
  {
    var n := |out| - 1;
    if k < |Packets(out[..n])| {
      c := PacketFromChannel(out[..n], k);
    } else {
      c := n;
    }
  }

  /** Every packet ever released is one that was presented on an input channel, order and data unchanged. */
  lemma {:induction false} ReleasedArrived<D(!new)>(powerUp: seq<Slot<D>>, channels: nat,
                                                    run: seq<seq<Option<Slot<D>>>>, k: nat)
    requires powerUp != [] && Run(channels, run)
    requires k < |Released(powerUp, channels, run)|
    ensures Arrived(run, Released(powerUp, channels, run)[k])
    decreases |run|
  {
    var before, ins, s, s' := LastClock(powerUp, channels, run);
    assert run == before + [ins];
    var earlier := Released(powerUp, channels, before);
    if k < |earlier| {
      ReleasedArrived(powerUp, channels, before, k);
    } else {
      var c := PacketFromChannel(s'.out, k - |earlier|);
      ReleasedArrivedEarlier(powerUp, channels, run, c);
    }
    ArrivedLater(before, ins, Released(powerUp, channels, run)[k]);
  }

  lemma AllReleasedArrived<D(!new)>(powerUp: seq<Slot<D>>, channels: nat, run: seq<seq<Option<Slot<D>>>>)
    requires powerUp != [] && Run(channels, run)
    ensures forall p | p in Released(powerUp, channels, run) :: Arrived(run, p)
  {
    var packets := Released(powerUp, channels, run);
    forall k: nat | k < |packets| ensures Arrived(run, packets[k]) {
      ReleasedArrived(powerUp, channels, run, k);
    }
  }

  /** The 61xxx codes are exactly the reports of a drained slot with the wrong order. */
  lemma {:induction false} DrainCodeMeaning<D>(buffer: seq<Slot<D>>, cursor: nat, d: nat, code: nat)
    requires buffer != [] && code < 61000
    ensures DrainCode(buffer, cursor, d, code) < 61000 <==>
              forall k: nat | k < d :: RightAt(buffer, cursor, k)
    ensures DrainCode(buffer, cursor, d, code) < 61000 ==> DrainCode(buffer, cursor, d, code) == code
  {
    if d > 0 { DrainCodeMeaning(buffer, cursor, d - 1, code); }
  }

  lemma {:induction false} CollisionCodeRange<D>(valid: seq<bool>, ins: seq<Option<Slot<D>>>)
    requires valid != []
    ensures CollisionCode(valid, ins) == 0 || 60000 <= CollisionCode(valid, ins) < 60256
    ensures CollisionCode(valid, ins) == 0 <==>
              forall c | 0 <= c < |ins| && ins[c].Some? :: !valid[ins[c].value.order % |valid|]
  {
    if ins != [] { CollisionCodeRange(valid, ins[..|ins| - 1]); }
  }

  /** A 60xxx code tells the low byte of the order of the last packet that met an occupied slot. */
  lemma {:induction false} CollisionCodeTells<D>(valid: seq<bool>, ins: seq<Option<Slot<D>>>) returns (c: nat)
    requires valid != []
    ensures CollisionCode(valid, ins) != 0 ==>
              && c < |ins| && ins[c].Some? && valid[ins[c].value.order % |valid|]
              && CollisionCode(valid, ins) == 60000 + ins[c].value.order % 256
              && forall k | c < k < |ins| && ins[k].Some? :: !valid[ins[k].value.order % |valid|]
  {
    c := 0;
    if ins != [] {
      var n := |ins| - 1;
      if ins[n].Some? && valid[ins[n].value.order % |valid|] {
        c := n;
      } else {
        c := CollisionCodeTells(valid, ins[..n]);
      }
    }
  }

  /** A 61xxx code tells the low byte of the last order that was drained from a slot with another order. */
  lemma {:induction false} DrainCodeTells<D>(buffer: seq<Slot<D>>, cursor: nat, d: nat, code: nat) returns (k: nat)
    requires buffer != [] && code < 61000
    ensures DrainCode(buffer, cursor, d, code) >= 61000 ==>
              && k < d && !RightAt(buffer, cursor, k)
              && DrainCode(buffer, cursor, d, code) == 61000 + (cursor + k) % WRAP % 256
              && forall i | k < i < d :: RightAt(buffer, cursor, i)
  {
    k := 0;
    if d > 0 {
      if !RightAt(buffer, cursor, d - 1) {
        k := d - 1;
      } else {
        k := DrainCodeTells(buffer, cursor, d - 1, code);
      }
    }
  }

  /** The outputs of a clock, as a list: the drained slots from the cursor on. */
  lemma {:induction false} PacketsOfDrain<D>(buffer: seq<Slot<D>>, cursor: nat, d: nat, channels: nat)
    requires buffer != [] && d <= channels
    ensures Packets(DrainOut(buffer, cursor, d, channels))
            == seq(d, k requires 0 <= k < d => buffer[SlotOf(cursor, k, |buffer|)])
    decreases channels
  {
    if channels > 0 {
      var out := DrainOut(buffer, cursor, d, channels);
      var d' := if d == channels then d - 1 else d;
      assert out[..channels - 1] == DrainOut(buffer, cursor, d', channels - 1);
      PacketsOfDrain(buffer, cursor, d', channels - 1);
    }
  }

  /** No clock of the run reports a 61xxx code. */
  ghost predicate NoOrderError<D>(powerUp: seq<Slot<D>>, channels: nat, run: seq<seq<Option<Slot<D>>>>)
    requires powerUp != [] && Run(channels, run)
  {
    forall t | 0 <= t <= |run| :: After(powerUp, channels, run[..t]).errcode < 61000
  }

  lemma NoOrderErrorPrefix<D>(powerUp: seq<Slot<D>>, channels: nat, run: seq<seq<Option<Slot<D>>>>)
    requires powerUp != [] && Run(channels, run) && run != []
    requires NoOrderError(powerUp, channels, run)
    ensures NoOrderError(powerUp, channels, run[..|run| - 1])
    ensures After(powerUp, channels, run).errcode < 61000
  {
    var before := run[..|run| - 1];
    assert forall t | 0 <= t <= |before| :: before[..t] == run[..t];
    assert run[..|run|] == run;
  }

  /** What one clock releases. */
  lemma ClockReleases<D>(s: State<D>, ins: seq<Option<Slot<D>>>)
    requires |s.buffer| == |s.valid| > 0 && |s.out| == |ins|
    ensures var d := DrainCount(s.valid, s.cursor, |ins|);
            var packets := Packets(Next(s, false, ins).out);
            && |packets| == d
            && Next(s, false, ins).cursor == (s.cursor + d) % WRAP
            && (forall k | 0 <= k < d :: packets[k] == s.buffer[SlotOf(s.cursor, k, |s.buffer|)])
            && forall c | 0 <= c < |ins| ::
                 Next(s, false, ins).out[c] == if c < d then Some(packets[c]) else None
  {
    PacketsOfDrain(s.buffer, s.cursor, DrainCount(s.valid, s.cursor, |ins|), |ins|);
  }

  /** The packets carry the orders from `start` on, modulo 2^64. */
  ghost predicate NumberedFrom<D>(packets: seq<Slot<D>>, start: nat) {
    forall k | 0 <= k < |packets| :: packets[k].order == (start + k) % WRAP
  }

  /** The k-th packet carries order k, modulo 2^64. */
  ghost predicate Numbered<D>(packets: seq<Slot<D>>) {
    forall k | 0 <= k < |packets| :: packets[k].order == k % WRAP
  }

  /** Without a 61xxx code the clock releases the orders from the cursor on. */
  lemma ClockReleasesInOrder<D>(s: State<D>, ins: seq<Option<Slot<D>>>)
    requires |s.buffer| == |s.valid| > 0 && |s.out| == |ins|
    requires Next(s, false, ins).errcode < 61000
    ensures NumberedFrom(Packets(Next(s, false, ins).out), s.cursor)
  {
    ClockReleases(s, ins);
    var packets := Packets(Next(s, false, ins).out);
    forall k: nat | k < |packets|
      ensures packets[k].order == (s.cursor + k) % WRAP
    {
      DrainedInOrder(s, ins, k);
    }
  }

  lemma DrainedInOrder<D>(s: State<D>, ins: seq<Option<Slot<D>>>, k: nat)
    requires |s.buffer| == |s.valid| > 0 && |s.out| == |ins|
    requires Next(s, false, ins).errcode < 61000
    requires k < DrainCount(s.valid, s.cursor, |ins|)
    ensures s.buffer[SlotOf(s.cursor, k, |s.buffer|)].order == (s.cursor + k) % WRAP
  {
    var d, code := DrainCount(s.valid, s.cursor, |ins|), CollisionCode(s.valid, ins);
    assert code < 61000 by { CollisionCodeRange(s.valid, ins); }
    assert DrainCode(s.buffer, s.cursor, d, code) < 61000;
    DrainedAt(s.buffer, s.cursor, d, code, k);
  }

  lemma DrainedAt<D>(buffer: seq<Slot<D>>, cursor: nat, d: nat, code: nat, k: nat)
    requires buffer != [] && code < 61000 && k < d
    requires DrainCode(buffer, cursor, d, code) < 61000
    ensures buffer[SlotOf(cursor, k, |buffer|)].order == (cursor + k) % WRAP
  {
    DrainCodeMeaning(buffer, cursor, d, code);
    assert RightAt(buffer, cursor, k);
  }

  lemma CursorStepCounts<D>(s: State<D>, ins: seq<Option<Slot<D>>>, n: nat)
    requires |s.buffer| == |s.valid| > 0 && |s.out| == |ins|
    requires s.cursor == n % WRAP
    ensures Next(s, false, ins).cursor == (n + |Packets(Next(s, false, ins).out)|) % WRAP
  {
    var d := DrainCount(s.valid, s.cursor, |ins|);
    assert |Packets(Next(s, false, ins).out)| == d by { ClockReleases(s, ins); }
    assert Next(s, false, ins).cursor == (s.cursor + d) % WRAP;
    ModAdd(n, d, WRAP);
  }

  /** The last clock of a run. */
  lemma LastClock<D>(powerUp: seq<Slot<D>>, channels: nat, run: seq<seq<Option<Slot<D>>>>)
    returns (before: seq<seq<Option<Slot<D>>>>, ins: seq<Option<Slot<D>>>, s: State<D>, s': State<D>)
    requires powerUp != [] && Run(channels, run) && run != []
    ensures before == run[..|run| - 1] && ins == run[|run| - 1] && |ins| == channels
    ensures Run(channels, before) && s == After(powerUp, channels, before) && s' == After(powerUp, channels, run)
    ensures s.Sized(|powerUp|, channels)
    ensures s' == Next(s, false, ins)
    ensures Released(powerUp, channels, run) == Released(powerUp, channels, before) + Packets(s'.out)
  {
    before, ins := run[..|run| - 1], run[|run| - 1];
    s, s' := After(powerUp, channels, before), After(powerUp, channels, run);
  }

  /** The cursor is the number of packets released so far. */
  lemma {:induction false} CursorCounts<D>(powerUp: seq<Slot<D>>, channels: nat, run: seq<seq<Option<Slot<D>>>>)
    requires powerUp != [] && Run(channels, run)
    ensures After(powerUp, channels, run).cursor == |Released(powerUp, channels, run)| % WRAP
    decreases |run|
  {
    if run != [] {
      var before, ins, s, s' := LastClock(powerUp, channels, run);
      CursorCounts(powerUp, channels, before);
      CursorStepCounts(s, ins, |Released(powerUp, channels, before)|);
    }
  }

  /** Appending packets numbered from the count on keeps a list numbered. */
  lemma NumberedAppend<D>(a: seq<Slot<D>>, b: seq<Slot<D>>)
    requires Numbered(a) && NumberedFrom(b, |a| % WRAP)
    ensures Numbered(a + b)
  {
    forall k | |a| <= k < |a + b| ensures (a + b)[k].order == k % WRAP {
      ModAdd(|a|, k - |a|, WRAP);
    }
  }

  /**
   Order safety: on every run without a 61xxx code the k-th released packet has order k
   (modulo 2^64), whatever the arrival pattern.
   */
  lemma {:induction false} ReleasedInOrder<D>(powerUp: seq<Slot<D>>, channels: nat, run: seq<seq<Option<Slot<D>>>>)
    requires powerUp != [] && Run(channels, run)
    requires NoOrderError(powerUp, channels, run)
    ensures Numbered(Released(powerUp, channels, run))
    decreases |run|
  {
    if run != [] {
      var before, ins, s, s' := LastClock(powerUp, channels, run);
      NoOrderErrorPrefix(powerUp, channels, run);
      ReleasedInOrder(powerUp, channels, before);
      CursorCounts(powerUp, channels, before);
      ClockReleasesInOrder(s, ins);
      NumberedAppend(Released(powerUp, channels, before), Packets(s'.out));
    }
  }

  // ----------------------------------------------------------------------------------
  // Which packets a silent clock keeps
  // ----------------------------------------------------------------------------------

  /** A later channel of the same clock stores into the same slot. */
  ghost predicate Overwritten<D>(ins: seq<Option<Slot<D>>>, c: nat, depth: nat)
    requires depth > 0 && c < |ins| && ins[c].Some?
  {
    exists c' | c < c' < |ins| && ins[c'].Some? :: ins[c'].value.order % depth == ins[c].value.order % depth
  }

  lemma {:induction false} StoredByLastChannel<D>(buffer: seq<Slot<D>>, ins: seq<Option<Slot<D>>>, c: nat)
    requires buffer != [] && c < |ins| && ins[c].Some?
    ensures var stored := InsertBuffer(buffer, ins)[ins[c].value.order % |buffer|];
            if Overwritten(ins, c, |buffer|) then exists c' | c < c' < |ins| :: ins[c'] == Some(stored)
            else stored == ins[c].value
  {
    var n := |ins| - 1;
    var before, i := ins[..n], ins[c].value.order % |buffer|;
    if c < n {
      StoredByLastChannel(buffer, before, c);
      if ins[n].Some? && ins[n].value.order % |buffer| == i {
        assert ins[n] == Some(InsertBuffer(buffer, ins)[i]);
      } else if Overwritten(ins, c, |buffer|) {
        var c' :| c < c' < |ins| && ins[c'].Some? && ins[c'].value.order % |buffer| == i;
        assert before[c'] == ins[c'];
        assert Overwritten(before, c, |buffer|);
        var c'' :| c < c'' < |before| && before[c''] == Some(InsertBuffer(buffer, before)[i]);
        assert ins[c''] == before[c''];
      } else {
        assert forall k | 0 <= k < n :: before[k] == ins[k];
      }
    }
  }

  lemma {:induction false} StoredIsValid<D>(valid: seq<bool>, ins: seq<Option<Slot<D>>>, c: nat)
    requires valid != [] && c < |ins| && ins[c].Some?
    ensures InsertValid(valid, ins)[ins[c].value.order % |valid|]
  {
    if c < |ins| - 1 { StoredIsValid(valid, ins[..|ins| - 1], c); }
  }

  lemma {:induction false} NotCleared(valid: seq<bool>, stored: seq<bool>, cursor: nat, n: nat, d: nat, i: nat)
    requires |valid| == |stored| > 0 && i < |valid| && d <= DrainCount(valid, cursor, n)
    requires !valid[i] && stored[i]
    ensures ClearValid(stored, cursor, d)[i]
  {
    if d > 0 {
      NotCleared(valid, stored, cursor, n, d - 1, i);
      DrainedSlotsValid(valid, cursor, n, d - 1);
    }
  }

  /**
   A clock that reports nothing keeps a packet exactly when no later channel of the same
   clock stores into the same slot; the second store of a clock into a slot is never reported.
   */
  lemma KeptIffLastInSlot<D>(s: State<D>, ins: seq<Option<Slot<D>>>, c: nat)
    requires |s.buffer| == |s.valid| > 0 && |s.out| == |ins|
    requires Next(s, false, ins).errcode == 0
    requires c < |ins| && ins[c].Some?
    requires forall c' | 0 <= c' < |ins| && c' != c :: ins[c'] != ins[c]
    ensures var s', i := Next(s, false, ins), ins[c].value.order % |s.valid|;
            s'.valid[i] && s'.buffer[i] == ins[c].value <==> !Overwritten(ins, c, |s.valid|)
  {
    var i, d := ins[c].value.order % |s.valid|, DrainCount(s.valid, s.cursor, |ins|);
    CollisionCodeRange(s.valid, ins);
    DrainCodeMeaning(s.buffer, s.cursor, d, CollisionCode(s.valid, ins));
    StoredByLastChannel(s.buffer, ins, c);
    StoredIsValid(s.valid, ins, c);
    NotCleared(s.valid, InsertValid(s.valid, ins), s.cursor, |ins|, d, i);
  }

  /** Orders 2 and 0 in one clock of a two-slot buffer: no code is raised and order 2 is gone. */
  lemma SilentLoss()
    ensures var run := [[Some(Slot(2, 'a')), Some(Slot(0, 'b'))]];
            var powerUp := [Slot(0, 'x'), Slot(0, 'x')];
            var s := After(powerUp, 2, run);
            && s.errcode == 0
            && Released(powerUp, 2, run) == []
            && forall i | 0 <= i < 2 :: s.valid[i] ==> s.buffer[i] == Slot(0, 'b')
  {
    var ins := [Some(Slot(2, 'a')), Some(Slot(0, 'b'))];
    var run, powerUp := [ins], [Slot(0, 'x'), Slot(0, 'x')];
    var s0 := ResetState(powerUp, 2);
    assert run[..0] == [] && After(powerUp, 2, run) == Next(s0, false, ins);
    assert ins[..1] == [ins[0]] && ins[..1][..0] == [];
    assert InsertValid(s0.valid, ins[..1]) == [true, false];
    assert InsertValid(s0.valid, ins) == [true, false];
    assert InsertBuffer(powerUp, ins) == [Slot(0, 'b'), Slot(0, 'x')];
    assert DrainCount(s0.valid, 0, 2) == 0 by {
      assert DrainCount(s0.valid, 0, 0) == 0;
      assert DrainCount(s0.valid, 0, 1) == 0;
    }
    CollisionCodeRange(s0.valid, ins);
    assert Packets(After(powerUp, 2, run).out) == [] by {
      PacketsOfDrain(powerUp, 0, 0, 2);
    }
  }
}
