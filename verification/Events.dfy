/** Logs of the transfers that happen during a run, one optional transfer per cycle. */
module Events {
  import opened Options

  /** The payloads of the transfers of a run, in bus order. */
  function Payloads<T>(events: seq<Option<T>>): seq<T> {
    if events == [] then []
    else
      var last := events[|events| - 1];
      Payloads(events[..|events| - 1]) + if last.Some? then [last.value] else []
  }

  /** The cycles in which the transfers of a run happen, in bus order. */
  function Cycles<T>(events: seq<Option<T>>): seq<nat> {
    if events == [] then []
    else
      Cycles(events[..|events| - 1]) + if events[|events| - 1].Some? then [|events| - 1] else []
  }

  /** The number of transfers before cycle `t`. */
  function Count<T>(events: seq<Option<T>>, t: nat): nat
    requires t <= |events|
  {
    |Payloads(events[..t])|
  }

  lemma {:induction false} SameLength<T>(events: seq<Option<T>>)
    ensures |Payloads(events)| == |Cycles(events)|
  {
    if events != [] { SameLength(events[..|events| - 1]); }
  }

  /** Cutting a run at cycle `t` cuts its log after the transfers before `t`. */
  lemma {:induction false} Cut<T>(events: seq<Option<T>>, t: nat)
    requires t <= |events|
    ensures Count(events, t) <= |Payloads(events)| == |Cycles(events)|
    ensures Payloads(events[..t]) == Payloads(events)[..Count(events, t)]
    ensures forall i | 0 <= i < Count(events, t) :: Cycles(events)[i] < t
    ensures forall i | Count(events, t) <= i < |Cycles(events)| :: t <= Cycles(events)[i] < |events|
  {
    SameLength(events);
    if t == |events| {
      assert events[..t] == events;
      CyclesBelow(events);
    } else {
      var before := events[..|events| - 1];
      SameLength(before);
      assert before[..t] == events[..t];
      Cut(before, t);
    }
  }

  lemma {:induction false} CyclesBelow<T>(events: seq<Option<T>>)
    ensures forall i | 0 <= i < |Cycles(events)| :: Cycles(events)[i] < |events|
  {
    if events != [] { CyclesBelow(events[..|events| - 1]); }
  }

  /** The transfer of cycle `t`, if there is one, is entry number `Count(events, t)` of the log. */
  lemma CutNext<T>(events: seq<Option<T>>, t: nat)
    requires t < |events|
    ensures Count(events, t + 1) == Count(events, t) + (if events[t].Some? then 1 else 0)
    ensures Count(events, t + 1) <= |Payloads(events)| == |Cycles(events)|
    ensures events[t].Some? ==>
              && Payloads(events)[Count(events, t)] == events[t].value
              && Cycles(events)[Count(events, t)] == t
  {
    var upTo := events[..t + 1];
    assert upTo[..|upTo| - 1] == events[..t] && upTo[|upTo| - 1] == events[t];
    Cut(events, t);
    Cut(events, t + 1);
    if events[t].Some? {
      var n := Count(events, t);
      assert Payloads(upTo)[n] == events[t].value;
      assert Payloads(upTo) == Payloads(events)[..Count(events, t + 1)];
    }
  }
}
