/**
 Which packets the reorder buffer keeps, on every run without an error code and whatever
 arrives: a presented packet has been released or waits in its slot, unless a later channel
 of its own clock stored into the same slot.
 */
module RobKept {
  import opened Options
  import opened Rob
  import opened RobOrder

  /** No clock of the run reports anything. */
  ghost predicate NoCode<D>(powerUp: seq<Slot<D>>, channels: nat, run: seq<seq<Option<Slot<D>>>>)
    requires powerUp != [] && Run(channels, run)
  {
    forall t | 0 <= t <= |run| :: After(powerUp, channels, run[..t]).errcode == 0
  }

  lemma NoCodePrefix<D>(powerUp: seq<Slot<D>>, channels: nat, run: seq<seq<Option<Slot<D>>>>)
    requires powerUp != [] && Run(channels, run) && run != []
    requires NoCode(powerUp, channels, run)
    ensures NoCode(powerUp, channels, run[..|run| - 1])
    ensures After(powerUp, channels, run).errcode == 0
  {
    var before := run[..|run| - 1];
    assert forall t | 0 <= t <= |before| :: before[..t] == run[..t];
    assert run[..|run|] == run;
  }

  /** In particular nothing comes out under a wrong order. */
  lemma NoCodeNoOrderError<D>(powerUp: seq<Slot<D>>, channels: nat, run: seq<seq<Option<Slot<D>>>>)
    requires powerUp != [] && Run(channels, run)
    requires NoCode(powerUp, channels, run)
    ensures NoOrderError(powerUp, channels, run)
  {
  }

  /** Everything in the list was presented. */
  ghost predicate AllArrived<D(!new)>(run: seq<seq<Option<Slot<D>>>>, packets: seq<Slot<D>>) {
    forall p | p in packets :: Arrived(run, p)
  }

  /** What a run without a code has released: presented packets, in order. */
  lemma NoCodeReleases<D(!new)>(powerUp: seq<Slot<D>>, channels: nat, run: seq<seq<Option<Slot<D>>>>)
    requires powerUp != [] && Run(channels, run)
    requires NoCode(powerUp, channels, run)
    ensures Numbered(Released(powerUp, channels, run))
    ensures AllArrived(run, Released(powerUp, channels, run))
  {
    NoCodeNoOrderError(powerUp, channels, run);
    ReleasedInOrder(powerUp, channels, run);
    AllReleasedArrived(powerUp, channels, run);
  }

  /** The packet is in its slot. */
  ghost predicate Waits<D>(s: State<D>, p: Slot<D>)
    requires |s.buffer| == |s.valid| > 0
  {
    s.valid[p.order % |s.valid|] && s.buffer[p.order % |s.valid|] == p
  }

  /** Channel `c` of clock `t` presents a packet. */
  predicate Presented<D>(run: seq<seq<Option<Slot<D>>>>, t: nat, c: nat) {
    t < |run| && c < |run[t]| && run[t][c].Some?
  }

  /** The packet has left the buffer or waits in its slot. */
  ghost predicate Accounted<D>(powerUp: seq<Slot<D>>, channels: nat, run: seq<seq<Option<Slot<D>>>>, p: Slot<D>)
    requires powerUp != [] && Run(channels, run)
  {
    p in Released(powerUp, channels, run) || Waits(After(powerUp, channels, run), p)
  }

  // ----------------------------------------------------------------------------------
  // Packets that stay
  // ----------------------------------------------------------------------------------

  /** A silent clock stores into free slots only. */
  lemma NoCollisions<D>(s: State<D>, ins: seq<Option<Slot<D>>>)
    requires |s.buffer| == |s.valid| > 0 && |s.out| == |ins|
    requires Next(s, false, ins).errcode == 0
    ensures forall c | 0 <= c < |ins| && ins[c].Some? :: !s.valid[ins[c].value.order % |s.valid|]
  {
    var d, code := DrainCount(s.valid, s.cursor, |ins|), CollisionCode(s.valid, ins);
    CollisionCodeRange(s.valid, ins);
    DrainCodeMeaning(s.buffer, s.cursor, d, code);
  }

  lemma {:induction false} UntouchedByStore<D>(buffer: seq<Slot<D>>, valid: seq<bool>, ins: seq<Option<Slot<D>>>, i: nat)
    requires |buffer| == |valid| > 0 && i < |valid| && valid[i]
    requires forall c | 0 <= c < |ins| && ins[c].Some? :: !valid[ins[c].value.order % |valid|]
    ensures InsertValid(valid, ins)[i] && InsertBuffer(buffer, ins)[i] == buffer[i]
  {
    if ins != [] {
      var n := |ins| - 1;
      assert forall c | 0 <= c < n :: ins[..n][c] == ins[c];
      UntouchedByStore(buffer, valid, ins[..n], i);
      assert ins[n].Some? ==> ins[n].value.order % |valid| != i;
    }
  }

  /** A slot that is not drained keeps its valid bit. */
  lemma {:induction false} DrainedOrStays(stored: seq<bool>, cursor: nat, d: nat, i: nat) returns (k: nat)
    requires stored != [] && i < |stored| && stored[i]
    ensures ClearValid(stored, cursor, d)[i] || (k < d && SlotOf(cursor, k, |stored|) == i)
  {
    k := 0;
    if d > 0 {
      if SlotOf(cursor, d - 1, |stored|) == i {
        k := d - 1;
      } else {
        k := DrainedOrStays(stored, cursor, d - 1, i);
      }
    }
  }

  /** One silent clock releases a waiting packet or leaves it waiting. */
  lemma WaitingStep<D>(s: State<D>, ins: seq<Option<Slot<D>>>, p: Slot<D>)
    requires |s.buffer| == |s.valid| > 0 && |s.out| == |ins|
    requires Next(s, false, ins).errcode == 0
    requires Waits(s, p)
    ensures p in Packets(Next(s, false, ins).out) || Waits(Next(s, false, ins), p)
  {
    var i, d := p.order % |s.valid|, DrainCount(s.valid, s.cursor, |ins|);
    NoCollisions(s, ins);
    UntouchedByStore(s.buffer, s.valid, ins, i);
    var k := DrainedOrStays(InsertValid(s.valid, ins), s.cursor, d, i);
    if k < d && SlotOf(s.cursor, k, |s.valid|) == i {
      ClockReleases(s, ins);
      assert Packets(Next(s, false, ins).out)[k] == p;
    }
  }

  /** A packet that a silent clock stores, and that is not overwritten in this clock, waits. */
  lemma StoredWaits<D>(s: State<D>, ins: seq<Option<Slot<D>>>, c: nat)
    requires |s.buffer| == |s.valid| > 0 && |s.out| == |ins|
    requires Next(s, false, ins).errcode == 0
    requires c < |ins| && ins[c].Some? && !Overwritten(ins, c, |s.valid|)
    ensures Waits(Next(s, false, ins), ins[c].value)
  {
    var i, d := ins[c].value.order % |s.valid|, DrainCount(s.valid, s.cursor, |ins|);
    NoCollisions(s, ins);
    StoredByLastChannel(s.buffer, ins, c);
    StoredIsValid(s.valid, ins, c);
    NotCleared(s.valid, InsertValid(s.valid, ins), s.cursor, |ins|, d, i);
  }

  /**
   On every run without a code, whatever arrives: a packet that was not overwritten in its own
   clock has been released or waits in its slot.
   */
  lemma {:induction false} KeptThroughout<D>(powerUp: seq<Slot<D>>, channels: nat, run: seq<seq<Option<Slot<D>>>>,
                                             t: nat, c: nat)
    requires powerUp != [] && Run(channels, run)
    requires NoCode(powerUp, channels, run)
    requires Presented(run, t, c) && !Overwritten(run[t], c, |powerUp|)
    ensures Accounted(powerUp, channels, run, run[t][c].value)
    decreases |run|
  {
    var before, ins, s, s' := LastClock(powerUp, channels, run);
    NoCodePrefix(powerUp, channels, run);
    if t == |run| - 1 {
      StoredWaits(s, ins, c);
    } else {
      KeptThroughout(powerUp, channels, before, t, c);
      if Waits(s, run[t][c].value) { WaitingStep(s, ins, run[t][c].value); }
    }
  }

  // ----------------------------------------------------------------------------------
  // Packets that are lost
  // ----------------------------------------------------------------------------------

  /** No other channel or clock presents the same packet. */
  ghost predicate Once<D>(run: seq<seq<Option<Slot<D>>>>, t: nat, c: nat)
    requires Presented(run, t, c)
  {
    forall t': nat, c': nat | Presented(run, t', c') && (t', c') != (t, c) :: run[t'][c'] != run[t][c]
  }

  ghost predicate NotHeld<D>(buffer: seq<Slot<D>>, valid: seq<bool>, p: Slot<D>)
    requires |buffer| == |valid|
  {
    forall i | 0 <= i < |valid| && valid[i] :: buffer[i] != p
  }

  /** What a slot in use holds after a store was there before, or belongs there and was stored now. */
  lemma {:induction false} StoredFromOwnSlot<D>(buffer: seq<Slot<D>>, valid: seq<bool>, ins: seq<Option<Slot<D>>>, i: nat)
    returns (c: nat)
    requires |buffer| == |valid| > 0 && i < |valid|
    requires InsertValid(valid, ins)[i]
    ensures (valid[i] && InsertBuffer(buffer, ins)[i] == buffer[i])
            || (c < |ins| && ins[c] == Some(InsertBuffer(buffer, ins)[i]) && ins[c].value.order % |valid| == i)
  {
    c := 0;
    if ins != [] {
      var n := |ins| - 1;
      if ins[n].Some? && ins[n].value.order % |valid| == i {
        c := n;
      } else {
        c := StoredFromOwnSlot(buffer, valid, ins[..n], i);
      }
    }
  }

  /** A packet that is overwritten in its own clock is in no slot afterwards. */
  lemma OverwrittenIsNotHeld<D>(buffer: seq<Slot<D>>, valid: seq<bool>, ins: seq<Option<Slot<D>>>, c: nat)
    requires |buffer| == |valid| > 0 && c < |ins| && ins[c].Some?
    requires NotHeld(buffer, valid, ins[c].value)
    requires Overwritten(ins, c, |valid|)
    requires forall c' | 0 <= c' < |ins| && c' != c :: ins[c'] != ins[c]
    ensures NotHeld(InsertBuffer(buffer, ins), InsertValid(valid, ins), ins[c].value)
  {
    StoredByLastChannel(buffer, ins, c);
    forall i: nat | i < |valid| && InsertValid(valid, ins)[i]
      ensures InsertBuffer(buffer, ins)[i] != ins[c].value
    {
      var _ := StoredFromOwnSlot(buffer, valid, ins, i);
    }
  }

  /** A packet that is not presented does not get into a slot. */
  lemma AbsentIsNotHeld<D>(buffer: seq<Slot<D>>, valid: seq<bool>, ins: seq<Option<Slot<D>>>, p: Slot<D>)
    requires |buffer| == |valid| > 0
    requires NotHeld(buffer, valid, p)
    requires forall c | 0 <= c < |ins| :: ins[c] != Some(p)
    ensures NotHeld(InsertBuffer(buffer, ins), InsertValid(valid, ins), p)
  {
    forall i: nat | i < |valid| && InsertValid(valid, ins)[i]
      ensures InsertBuffer(buffer, ins)[i] != p
    {
      var _ := StoredFromOwnSlot(buffer, valid, ins, i);
    }
  }

  /** A clock neither releases nor holds what was in no slot and is in none after the store. */
  lemma NotHeldStep<D>(s: State<D>, ins: seq<Option<Slot<D>>>, p: Slot<D>)
    requires |s.buffer| == |s.valid| > 0 && |s.out| == |ins|
    requires NotHeld(s.buffer, s.valid, p)
    requires NotHeld(InsertBuffer(s.buffer, ins), InsertValid(s.valid, ins), p)
    ensures NotHeld(Next(s, false, ins).buffer, Next(s, false, ins).valid, p)
    ensures p !in Packets(Next(s, false, ins).out)
  {
    var s', d := Next(s, false, ins), DrainCount(s.valid, s.cursor, |ins|);
    forall i: nat | i < |s'.valid| && s'.valid[i] ensures s'.buffer[i] != p {
      ClearedOnly(InsertValid(s.valid, ins), s.cursor, d, i);
    }
    ClockReleases(s, ins);
    forall k: nat | k < d ensures Packets(s'.out)[k] != p {
      DrainedSlotsValid(s.valid, s.cursor, |ins|, k);
    }
  }

  /** What was never presented is neither held nor released. */
  lemma AbsentThroughout<D(!new)>(powerUp: seq<Slot<D>>, channels: nat, run: seq<seq<Option<Slot<D>>>>, p: Slot<D>)
    requires powerUp != [] && Run(channels, run)
    requires !Arrived(run, p)
    ensures NotHeld(After(powerUp, channels, run).buffer, After(powerUp, channels, run).valid, p)
    ensures p !in Released(powerUp, channels, run)
  {
    GenuineThroughout(powerUp, channels, run);
    forall k: nat | k < |Released(powerUp, channels, run)| ensures Released(powerUp, channels, run)[k] != p {
      ReleasedArrived(powerUp, channels, run, k);
    }
  }

  /** A packet that is presented once and overwritten in its clock never shows again, reported or not. */
  lemma {:induction false} LostThroughout<D(!new)>(powerUp: seq<Slot<D>>, channels: nat, run: seq<seq<Option<Slot<D>>>>,
                                                   t: nat, c: nat)
    requires powerUp != [] && Run(channels, run)
    requires Presented(run, t, c) && Once(run, t, c) && Overwritten(run[t], c, |powerUp|)
    ensures NotHeld(After(powerUp, channels, run).buffer, After(powerUp, channels, run).valid, run[t][c].value)
    ensures run[t][c].value !in Released(powerUp, channels, run)
    decreases |run|
  {
    var p := run[t][c].value;
    var before, ins, s, s' := LastClock(powerUp, channels, run);
    if t == |run| - 1 {
      forall t': nat, c': nat | t' < |before| && c' < |before[t']| ensures before[t'][c'] != Some(p) {
        assert before[t'][c'].Some? ==> Presented(run, t', c');
      }
      AbsentThroughout(powerUp, channels, before, p);
      forall c': nat | c' < |ins| && c' != c ensures ins[c'] != ins[c] {
        assert ins[c'].Some? ==> Presented(run, t, c');
      }
      OverwrittenIsNotHeld(s.buffer, s.valid, ins, c);
    } else {
      OnceBefore(run, t, c);
      LostThroughout(powerUp, channels, before, t, c);
      forall c': nat | c' < |ins| ensures ins[c'] != Some(p) {
        assert ins[c'].Some? ==> Presented(run, |run| - 1, c');
      }
      AbsentIsNotHeld(s.buffer, s.valid, ins, p);
    }
    NotHeldStep(s, ins, p);
  }

  lemma OnceBefore<D>(run: seq<seq<Option<Slot<D>>>>, t: nat, c: nat)
    requires Presented(run, t, c) && Once(run, t, c) && t < |run| - 1
    ensures Presented(run[..|run| - 1], t, c) && Once(run[..|run| - 1], t, c)
  {
    var before := run[..|run| - 1];
    forall t': nat, c': nat | Presented(before, t', c') && (t', c') != (t, c) ensures before[t'][c'] != before[t][c] {
      assert Presented(run, t', c');
    }
  }

  lemma KeptOrLost<D(!new)>(powerUp: seq<Slot<D>>, channels: nat, run: seq<seq<Option<Slot<D>>>>, t: nat, c: nat)
    requires powerUp != [] && Run(channels, run)
    requires NoCode(powerUp, channels, run)
    requires Presented(run, t, c)
    ensures !Overwritten(run[t], c, |powerUp|) ==> Accounted(powerUp, channels, run, run[t][c].value)
    ensures Overwritten(run[t], c, |powerUp|) && Once(run, t, c) ==>
              !Accounted(powerUp, channels, run, run[t][c].value)
  {
    if !Overwritten(run[t], c, |powerUp|) {
      KeptThroughout(powerUp, channels, run, t, c);
    } else if Once(run, t, c) {
      LostThroughout(powerUp, channels, run, t, c);
    }
  }

  /**
   The exact condition, over whole runs: on a run without a code a packet presented once is
   accounted for if and only if no later channel of its clock stored into its slot.
   */
  lemma AccountedIff<D(!new)>(powerUp: seq<Slot<D>>, channels: nat, run: seq<seq<Option<Slot<D>>>>, t: nat, c: nat)
    requires powerUp != [] && Run(channels, run)
    requires NoCode(powerUp, channels, run)
    requires Presented(run, t, c) && Once(run, t, c)
    ensures Accounted(powerUp, channels, run, run[t][c].value) <==> !Overwritten(run[t], c, |powerUp|)
  {
    KeptOrLost(powerUp, channels, run, t, c);
  }
}
