/**
 What the reorder buffer guarantees for well-behaved arrivals: when every order arrives
 once, while it is within `depth` of the cursor, nothing is reported, nothing is lost, and
 the cursor moves as fast as the output channels allow.

 Arrivals are numbered by unbounded indices; the 64-bit order of a packet is its index
 modulo 2^64, so the results also cover runs in which orders wrap around.
 */
module RobWindow {
  import opened Interface
  import opened Options
  import opened Powers
  import opened Rob
  import opened RobOrder

  datatype Arrival<+D> = Arrival(index: nat, data: D)

  function PacketOf<D>(a: Arrival<D>): Slot<D> {
    Slot(a.index % WRAP, a.data)
  }

  function Encode<D>(ins: seq<Option<Arrival<D>>>): (r: seq<Option<Slot<D>>>)
    ensures |r| == |ins|
  {
    seq(|ins|, c requires 0 <= c < |ins| => if ins[c].Some? then Some(PacketOf(ins[c].value)) else None)
  }

  /** The arrivals of one clock are new, distinct, and within the window of `depth` indices from `n` on. */
  ghost predicate Fits<D>(arrived: map<nat, D>, n: nat, depth: nat, ins: seq<Option<Arrival<D>>>) {
    && (forall c | 0 <= c < |ins| && ins[c].Some? ::
          ins[c].value.index !in arrived && n <= ins[c].value.index < n + depth)
    && (forall c, c' | 0 <= c < c' < |ins| && ins[c].Some? && ins[c'].Some? ::
          ins[c].value.index != ins[c'].value.index)
  }

  function AddArrivals<D>(arrived: map<nat, D>, ins: seq<Option<Arrival<D>>>): map<nat, D> {
    if ins == [] then arrived
    else
      var rest, last := AddArrivals(arrived, ins[..|ins| - 1]), ins[|ins| - 1];
      if last.Some? then rest[last.value.index := last.value.data] else rest
  }

  /** After `n` releases: everything below `n` has arrived, and the ring holds exactly the arrivals from `n` on. */
  ghost predicate Holds<D>(s: State<D>, n: nat, arrived: map<nat, D>, depth: nat, channels: nat) {
    && depth > 0
    && s.Sized(depth, channels)
    && s.cursor == n % WRAP
    && (forall i | 0 <= i < n :: i in arrived)
    && (forall i | i in arrived :: i < n + depth)
    && (forall i | n <= i < n + depth :: SlotHolds(s.buffer, s.valid, arrived, i))
  }

  ghost predicate SlotHolds<D>(buffer: seq<Slot<D>>, valid: seq<bool>, arrived: map<nat, D>, i: nat)
    requires |buffer| == |valid| > 0
  {
    && (valid[i % |valid|] <==> i in arrived)
    && (i in arrived ==> buffer[i % |valid|] == Slot(i % WRAP, arrived[i]))
  }

  /** Ring indices in terms of unbounded indices. */
  lemma SlotOfIndex(n: nat, k: nat, depth: nat)
    requires IsDepth(depth)
    ensures SlotOf(n % WRAP, k, depth) == (n + k) % depth
    ensures (n % WRAP) % depth == n % depth
  {
    ModAdd(n, k, WRAP);
    WrapThenIndex(n + k, depth);
    WrapThenIndex(n, depth);
  }

  lemma WrapThenIndex(n: nat, depth: nat)
    requires IsDepth(depth)
    ensures (n % WRAP) % depth == n % depth
  {
    var k := WRAP / depth;
    assert WRAP == k * depth;
    ModMod(n, k, depth);
  }

  // ----------------------------------------------------------------------------------
  // One clock
  // ----------------------------------------------------------------------------------

  /** How many of the next `channels` indices have arrived without a gap. */
  function Contiguous<D>(arrived: map<nat, D>, n: nat, channels: nat): (d: nat)
    ensures d <= channels
    ensures forall i | n <= i < n + d :: i in arrived
    ensures d < channels ==> n + d !in arrived
  {
    if channels == 0 then 0
    else
      var d := Contiguous(arrived, n, channels - 1);
      if d == channels - 1 && n + d in arrived then channels else d
  }

  lemma {:induction false} DrainIsContiguous<D>(s: State<D>, n: nat, arrived: map<nat, D>, depth: nat,
                                                channels: nat, c: nat)
    requires IsDepth(depth) && c <= channels <= depth
    requires Holds(s, n, arrived, depth, channels)
    ensures DrainCount(s.valid, s.cursor, c) == Contiguous(arrived, n, c)
  {
    if c > 0 {
      DrainIsContiguous(s, n, arrived, depth, channels, c - 1);
      var d := Contiguous(arrived, n, c - 1);
      SlotOfIndex(n, d, depth);
      assert SlotHolds(s.buffer, s.valid, arrived, n + d);
    }
  }

  lemma {:induction false} AddedArrivals<D>(arrived: map<nat, D>, ins: seq<Option<Arrival<D>>>, i: nat)
    ensures i in AddArrivals(arrived, ins) <==>
              i in arrived || exists c | 0 <= c < |ins| :: ins[c].Some? && ins[c].value.index == i
  {
    if ins != [] {
      var before, last := ins[..|ins| - 1], ins[|ins| - 1];
      AddedArrivals(arrived, before, i);
      if c :| 0 <= c < |ins| && ins[c].Some? && ins[c].value.index == i && c < |ins| - 1 {
        assert before[c].Some? && before[c].value.index == i;
      }
      if c :| 0 <= c < |before| && before[c].Some? && before[c].value.index == i {
        assert ins[c].Some? && ins[c].value.index == i;
      }
    }
  }

  lemma FitsPrefix<D>(arrived: map<nat, D>, n: nat, depth: nat, ins: seq<Option<Arrival<D>>>)
    requires Fits(arrived, n, depth, ins) && ins != []
    ensures Fits(arrived, n, depth, ins[..|ins| - 1])
    ensures Encode(ins)[..|ins| - 1] == Encode(ins[..|ins| - 1])
    ensures var last := ins[|ins| - 1]; last.Some? ==> last.value.index !in AddArrivals(arrived, ins[..|ins| - 1])
  {
    var before, last := ins[..|ins| - 1], ins[|ins| - 1];
    if last.Some? {
      AddedArrivals(arrived, before, last.value.index);
    }
  }

  /** Storing the arrivals of a clock puts each into its own slot of the window. */
  lemma {:induction false} StoreHolds<D>(s: State<D>, n: nat, arrived: map<nat, D>, depth: nat,
                                         ins: seq<Option<Arrival<D>>>, i: nat)
    requires IsDepth(depth) && |s.buffer| == |s.valid| == depth
    requires n <= i < n + depth
    requires SlotHolds(s.buffer, s.valid, arrived, i)
    requires Fits(arrived, n, depth, ins)
    ensures SlotHolds(InsertBuffer(s.buffer, Encode(ins)), InsertValid(s.valid, Encode(ins)), AddArrivals(arrived, ins), i)
  {
    if ins != [] {
      var before, last := ins[..|ins| - 1], ins[|ins| - 1];
      FitsPrefix(arrived, n, depth, ins);
      StoreHolds(s, n, arrived, depth, before, i);
      if last.Some? {
        var j := last.value.index;
        WrapThenIndex(j, depth);
        if j < i { SameResidueIn(j, i, depth); } else { SameResidueIn(i, j, depth); }
      }
    }
  }

  lemma SameResidueIn(x: nat, y: nat, m: nat)
    requires m > 0 && x <= y < x + m
    ensures x % m == y % m <==> x == y
  {
    if x % m == y % m { SameResidue(x, y, m); }
  }

  lemma {:induction false} ClearedAt(valid: seq<bool>, n: nat, d: nat, depth: nat, i: nat)
    requires IsDepth(depth) && |valid| == depth && d <= depth
    requires n <= i < n + d + depth
    ensures ClearValid(valid, n % WRAP, d)[i % depth] <==> valid[i % depth] && n + d <= i < n + depth
  {
    if d > 0 {
      var j := n + (d - 1);
      SlotOfIndex(n, d - 1, depth);
      if i < n + (d - 1) + depth {
        ClearedAt(valid, n, d - 1, depth, i);
        if i < j { SameResidueIn(i, j, depth); } else { SameResidueIn(j, i, depth); }
      } else {
        assert i == j + depth;
        ModDropMultiple(j, 1, depth);
        assert i % depth == j % depth;
      }
    } else {
      assert ClearValid(valid, n % WRAP, 0) == valid;
    }
  }

  /** One slot of the moved window: it either keeps its arrival or has just been emptied. */
  lemma WindowSlot<D>(s: State<D>, n: nat, arrived: map<nat, D>, depth: nat, channels: nat,
                      ins: seq<Option<Arrival<D>>>, i: nat)
    requires IsDepth(depth) && channels <= depth && |ins| == channels
    requires Holds(s, n, arrived, depth, channels)
    requires Fits(arrived, n, depth, ins)
    requires var d := Contiguous(arrived, n, channels); n + d <= i < n + d + depth
    ensures var d := Contiguous(arrived, n, channels);
            SlotHolds(InsertBuffer(s.buffer, Encode(ins)),
                      ClearValid(InsertValid(s.valid, Encode(ins)), s.cursor, d),
                      AddArrivals(arrived, ins), i)
  {
    var d := Contiguous(arrived, n, channels);
    var stored := InsertValid(s.valid, Encode(ins));
    ClearedAt(stored, n, d, depth, i);
    if i < n + depth {
      assert SlotHolds(s.buffer, s.valid, arrived, i);
      StoreHolds(s, n, arrived, depth, ins, i);
    } else {
      AddedArrivals(arrived, ins, i);
    }
  }

  lemma ClockArrivals<D>(n: nat, arrived: map<nat, D>, depth: nat, channels: nat, ins: seq<Option<Arrival<D>>>)
    requires Fits(arrived, n, depth, ins)
    requires forall i | 0 <= i < n :: i in arrived
    requires forall i | i in arrived :: i < n + depth
    ensures forall i | 0 <= i < n + Contiguous(arrived, n, channels) :: i in AddArrivals(arrived, ins)
    ensures forall i | i in AddArrivals(arrived, ins) :: i < n + depth
  {
    forall i | 0 <= i < n + Contiguous(arrived, n, channels) ensures i in AddArrivals(arrived, ins) {
      AddedArrivals(arrived, ins, i);
    }
    forall i | i in AddArrivals(arrived, ins) ensures i < n + depth {
      AddedArrivals(arrived, ins, i);
    }
  }

  lemma ClockRegisters<D>(s: State<D>, n: nat, arrived: map<nat, D>, depth: nat, channels: nat,
                          ins: seq<Option<Arrival<D>>>)
    requires IsDepth(depth) && channels <= depth && |ins| == channels
    requires Holds(s, n, arrived, depth, channels)
    ensures var d, s' := Contiguous(arrived, n, channels), Next(s, false, Encode(ins));
            && s'.Sized(depth, channels)
            && s'.cursor == (n + d) % WRAP
            && s'.buffer == InsertBuffer(s.buffer, Encode(ins))
            && s'.valid == ClearValid(InsertValid(s.valid, Encode(ins)), s.cursor, d)
  {
    DrainIsContiguous(s, n, arrived, depth, channels, channels);
    ModAdd(n, Contiguous(arrived, n, channels), WRAP);
  }

  /** The whole clock: the window moves past the contiguous arrivals. */
  lemma ClockHolds<D>(s: State<D>, n: nat, arrived: map<nat, D>, depth: nat, channels: nat, ins: seq<Option<Arrival<D>>>)
    requires IsDepth(depth) && channels <= depth && |ins| == channels
    requires Holds(s, n, arrived, depth, channels)
    requires Fits(arrived, n, depth, ins)
    ensures Holds(Next(s, false, Encode(ins)), n + Contiguous(arrived, n, channels),
                  AddArrivals(arrived, ins), depth, channels)
  {
    var s' := Next(s, false, Encode(ins));
    ClockArrivals(n, arrived, depth, channels, ins);
    ClockRegisters(s, n, arrived, depth, channels, ins);
    forall i | n + Contiguous(arrived, n, channels) <= i < n + Contiguous(arrived, n, channels) + depth
      ensures SlotHolds(s'.buffer, s'.valid, AddArrivals(arrived, ins), i)
    {
      WindowSlot(s, n, arrived, depth, channels, ins, i);
    }
  }

  /** The slots a clock drains hold the next contiguous arrivals. */
  lemma DrainedSlot<D>(s: State<D>, n: nat, arrived: map<nat, D>, depth: nat, channels: nat, k: nat)
    requires IsDepth(depth) && channels <= depth
    requires Holds(s, n, arrived, depth, channels)
    requires k < Contiguous(arrived, n, channels)
    ensures s.buffer[SlotOf(s.cursor, k, depth)] == Slot((n + k) % WRAP, arrived[n + k])
    ensures (s.cursor + k) % WRAP == (n + k) % WRAP
  {
    SlotOfIndex(n, k, depth);
    ModAdd(n, k, WRAP);
    assert SlotHolds(s.buffer, s.valid, arrived, n + k);
  }

  lemma NoCollision<D>(s: State<D>, n: nat, arrived: map<nat, D>, depth: nat, channels: nat, ins: seq<Option<Arrival<D>>>)
    requires IsDepth(depth)
    requires Holds(s, n, arrived, depth, channels)
    requires Fits(arrived, n, depth, ins)
    ensures CollisionCode(s.valid, Encode(ins)) == 0
  {
    var packed := Encode(ins);
    forall c | 0 <= c < |packed| && packed[c].Some? ensures !s.valid[packed[c].value.order % depth] {
      WrapThenIndex(ins[c].value.index, depth);
      assert SlotHolds(s.buffer, s.valid, arrived, ins[c].value.index);
    }
    CollisionCodeRange(s.valid, packed);
  }

  /** No code is raised. */
  lemma ClockSilent<D>(s: State<D>, n: nat, arrived: map<nat, D>, depth: nat, channels: nat, ins: seq<Option<Arrival<D>>>)
    requires IsDepth(depth) && channels <= depth && |ins| == channels
    requires Holds(s, n, arrived, depth, channels)
    requires Fits(arrived, n, depth, ins)
    ensures Next(s, false, Encode(ins)).errcode == 0
  {
    var d := Contiguous(arrived, n, channels);
    DrainIsContiguous(s, n, arrived, depth, channels, channels);
    NoCollision(s, n, arrived, depth, channels, ins);
    forall k: nat | k < d ensures RightAt(s.buffer, s.cursor, k) {
      DrainedSlot(s, n, arrived, depth, channels, k);
    }
    DrainCodeMeaning(s.buffer, s.cursor, d, 0);
  }

  /** A list of packets is the arrivals number `n`, `n + 1`, ... */
  ghost predicate IsStretch<D>(packets: seq<Slot<D>>, n: nat, arrived: map<nat, D>) {
    forall k | 0 <= k < |packets| :: n + k in arrived && packets[k] == Slot((n + k) % WRAP, arrived[n + k])
  }

  /** The clock outputs the contiguous arrivals. */
  lemma ClockOutputs<D>(s: State<D>, n: nat, arrived: map<nat, D>, depth: nat, channels: nat, ins: seq<Option<Arrival<D>>>)
    requires IsDepth(depth) && channels <= depth && |ins| == channels
    requires Holds(s, n, arrived, depth, channels)
    ensures var packets := Packets(Next(s, false, Encode(ins)).out);
            |packets| == Contiguous(arrived, n, channels) && IsStretch(packets, n, arrived)
  {
    DrainIsContiguous(s, n, arrived, depth, channels, channels);
    ClockReleases(s, Encode(ins));
    var packets := Packets(Next(s, false, Encode(ins)).out);
    forall k | 0 <= k < |packets|
      ensures n + k in arrived && packets[k] == Slot((n + k) % WRAP, arrived[n + k])
    {
      DrainedSlot(s, n, arrived, depth, channels, k);
    }
  }

  /** Stretches join, and survive further arrivals. */
  lemma StretchJoin<D>(a: seq<Slot<D>>, b: seq<Slot<D>>, arrived: map<nat, D>, arrived': map<nat, D>)
    requires IsStretch(a, 0, arrived) && IsStretch(b, |a|, arrived)
    requires forall i | i in arrived :: i in arrived' && arrived'[i] == arrived[i]
    ensures IsStretch(a + b, 0, arrived')
  {
    forall k | 0 <= k < |a + b| ensures k in arrived' && (a + b)[k] == Slot(k % WRAP, arrived'[k]) {
      if k < |a| {
        assert (a + b)[k] == a[k];
      } else {
        assert (a + b)[k] == b[k - |a|];
      }
    }
  }

  /** The clock as one step of the run invariant. */
  lemma ClockStep<D>(s: State<D>, n: nat, arrived: map<nat, D>, depth: nat, channels: nat, ins: seq<Option<Arrival<D>>>,
                     s': State<D>, n': nat, arrived': map<nat, D>)
    requires IsDepth(depth) && channels <= depth && |ins| == channels
    requires Holds(s, n, arrived, depth, channels)
    requires Fits(arrived, n, depth, ins)
    requires s' == Next(s, false, Encode(ins))
    requires n' == n + Contiguous(arrived, n, channels) && arrived' == AddArrivals(arrived, ins)
    ensures Holds(s', n', arrived', depth, channels)
    ensures s'.errcode == 0
  {
    ClockSilent(s, n, arrived, depth, channels, ins);
    ClockHolds(s, n, arrived, depth, channels, ins);
    SameHolds(Next(s, false, Encode(ins)), n + Contiguous(arrived, n, channels), AddArrivals(arrived, ins),
              s', n', arrived', depth, channels);
  }

  lemma SameHolds<D>(a: State<D>, n: nat, arrived: map<nat, D>, b: State<D>, m: nat, arrived': map<nat, D>,
                     depth: nat, channels: nat)
    requires a == b && n == m && arrived == arrived'
    requires Holds(a, n, arrived, depth, channels)
    ensures Holds(b, m, arrived', depth, channels) && b.errcode == a.errcode
  {
  }

  // ----------------------------------------------------------------------------------
  // Whole runs
  // ----------------------------------------------------------------------------------

  function EncodeRun<D>(run: seq<seq<Option<Arrival<D>>>>): (r: seq<seq<Option<Slot<D>>>>)
    ensures |r| == |run|
  {
    seq(|run|, t requires 0 <= t < |run| => Encode(run[t]))
  }

  /** Everything that arrives during a run, by index. */
  function ArrivedBy<D>(run: seq<seq<Option<Arrival<D>>>>): map<nat, D> {
    if run == [] then map[] else AddArrivals(ArrivedBy(run[..|run| - 1]), run[|run| - 1])
  }

  /** The number of indices released during a run. */
  function CursorAfter<D>(channels: nat, run: seq<seq<Option<Arrival<D>>>>): nat {
    if run == [] then 0
    else
      var before := run[..|run| - 1];
      var n := CursorAfter(channels, before);
      n + Contiguous(ArrivedBy(before), n, channels)
  }

  /** Every arrival of the run is new and within the window at its time. */
  ghost predicate InWindow<D>(depth: nat, channels: nat, run: seq<seq<Option<Arrival<D>>>>) {
    run == [] ||
    var before, ins := run[..|run| - 1], run[|run| - 1];
    && InWindow(depth, channels, before)
    && |ins| == channels
    && Fits(ArrivedBy(before), CursorAfter(channels, before), depth, ins)
  }

  lemma {:induction false} InWindowIsRun<D>(depth: nat, channels: nat, run: seq<seq<Option<Arrival<D>>>>)
    requires InWindow(depth, channels, run)
    ensures Run(channels, EncodeRun(run))
  {
    if run != [] {
      var before := run[..|run| - 1];
      InWindowIsRun(depth, channels, before);
      assert forall t | 0 <= t < |before| :: EncodeRun(run)[t] == EncodeRun(before)[t];
    }
  }

  /** The last clock of a well-behaved run. */
  lemma LastArrivals<D>(powerUp: seq<Slot<D>>, depth: nat, channels: nat, run: seq<seq<Option<Arrival<D>>>>)
    returns (before: seq<seq<Option<Arrival<D>>>>, ins: seq<Option<Arrival<D>>>, n: nat, s: State<D>)
    requires |powerUp| == depth > 0 && run != []
    requires InWindow(depth, channels, run)
    ensures before == run[..|run| - 1] && ins == run[|run| - 1] && |ins| == channels
    ensures InWindow(depth, channels, before) && n == CursorAfter(channels, before)
    ensures Fits(ArrivedBy(before), n, depth, ins)
    ensures ArrivedBy(run) == AddArrivals(ArrivedBy(before), ins)
    ensures CursorAfter(channels, run) == n + Contiguous(ArrivedBy(before), n, channels)
    ensures Run(channels, EncodeRun(before)) && Run(channels, EncodeRun(run))
    ensures s == After(powerUp, channels, EncodeRun(before))
    ensures After(powerUp, channels, EncodeRun(run)) == Next(s, false, Encode(ins))
    ensures Released(powerUp, channels, EncodeRun(run))
            == Released(powerUp, channels, EncodeRun(before)) + Packets(Next(s, false, Encode(ins)).out)
  {
    before, ins := run[..|run| - 1], run[|run| - 1];
    InWindowIsRun(depth, channels, before);
    InWindowIsRun(depth, channels, run);
    n := CursorAfter(channels, before);
    assert EncodeRun(run)[..|run| - 1] == EncodeRun(before);
    var _, _, s0, _ := LastClock(powerUp, channels, EncodeRun(run));
    s := s0;
  }

  lemma {:induction false} WindowInvariant<D>(powerUp: seq<Slot<D>>, depth: nat, channels: nat,
                                              run: seq<seq<Option<Arrival<D>>>>)
    requires IsDepth(depth) && |powerUp| == depth && channels <= depth
    requires InWindow(depth, channels, run)
    ensures Run(channels, EncodeRun(run))
    ensures Holds(After(powerUp, channels, EncodeRun(run)), CursorAfter(channels, run), ArrivedBy(run), depth, channels)
    ensures After(powerUp, channels, EncodeRun(run)).errcode == 0
    decreases |run|
  {
    InWindowIsRun(depth, channels, run);
    if run != [] {
      var before, ins, n, s := LastArrivals(powerUp, depth, channels, run);
      WindowInvariant(powerUp, depth, channels, before);
      ClockStep(s, n, ArrivedBy(before), depth, channels, ins,
                After(powerUp, channels, EncodeRun(run)), CursorAfter(channels, run), ArrivedBy(run));
    }
  }

  /** Data never changes once it has arrived. */
  lemma {:induction false} ArrivalsStay<D>(arrived: map<nat, D>, ins: seq<Option<Arrival<D>>>, n: nat, depth: nat, i: nat)
    requires Fits(arrived, n, depth, ins) && i in arrived
    ensures i in AddArrivals(arrived, ins) && AddArrivals(arrived, ins)[i] == arrived[i]
  {
    if ins != [] {
      FitsPrefix(arrived, n, depth, ins);
      ArrivalsStay(arrived, ins[..|ins| - 1], n, depth, i);
    }
  }

  /**
   Completeness: a run of well-behaved arrivals raises no code in any clock; what has been
   released is exactly the arrivals below the cursor, in order of index; and every other
   arrival is still in its slot.
   */
  lemma NothingLost<D>(powerUp: seq<Slot<D>>, depth: nat, channels: nat,
                       run: seq<seq<Option<Arrival<D>>>>)
    requires IsDepth(depth) && |powerUp| == depth && channels <= depth
    requires InWindow(depth, channels, run)
    ensures Run(channels, EncodeRun(run))
    ensures After(powerUp, channels, EncodeRun(run)).errcode == 0
    ensures var released := Released(powerUp, channels, EncodeRun(run));
            |released| == CursorAfter(channels, run) && IsStretch(released, 0, ArrivedBy(run))
    ensures var s := After(powerUp, channels, EncodeRun(run));
            forall i | i in ArrivedBy(run) && i >= CursorAfter(channels, run) ::
              s.valid[i % depth] && s.buffer[i % depth] == Slot(i % WRAP, ArrivedBy(run)[i])
  {
    WindowInvariant(powerUp, depth, channels, run);
    ReleasedSoFar(powerUp, depth, channels, run);
    var s := After(powerUp, channels, EncodeRun(run));
    forall i | i in ArrivedBy(run) && i >= CursorAfter(channels, run)
      ensures s.valid[i % depth] && s.buffer[i % depth] == Slot(i % WRAP, ArrivedBy(run)[i])
    {
      assert SlotHolds(s.buffer, s.valid, ArrivedBy(run), i);
    }
  }

  lemma {:induction false} ReleasedSoFar<D>(powerUp: seq<Slot<D>>, depth: nat, channels: nat,
                                            run: seq<seq<Option<Arrival<D>>>>)
    requires IsDepth(depth) && |powerUp| == depth && channels <= depth
    requires InWindow(depth, channels, run)
    ensures Run(channels, EncodeRun(run))
    ensures var released := Released(powerUp, channels, EncodeRun(run));
            |released| == CursorAfter(channels, run) && IsStretch(released, 0, ArrivedBy(run))
    decreases |run|
  {
    InWindowIsRun(depth, channels, run);
    if run != [] {
      var before, ins, n, s := LastArrivals(powerUp, depth, channels, run);
      ReleasedSoFar(powerUp, depth, channels, before);
      WindowInvariant(powerUp, depth, channels, before);
      ReleasedStep(s, n, ArrivedBy(before), depth, channels, ins, Released(powerUp, channels, EncodeRun(before)));
    }
  }

  lemma ReleasedStep<D>(s: State<D>, n: nat, arrived: map<nat, D>, depth: nat, channels: nat,
                        ins: seq<Option<Arrival<D>>>, released: seq<Slot<D>>)
    requires IsDepth(depth) && channels <= depth && |ins| == channels
    requires Holds(s, n, arrived, depth, channels)
    requires Fits(arrived, n, depth, ins)
    requires |released| == n && IsStretch(released, 0, arrived)
    ensures var released' := released + Packets(Next(s, false, Encode(ins)).out);
            && |released'| == n + Contiguous(arrived, n, channels)
            && IsStretch(released', 0, AddArrivals(arrived, ins))
  {
    ClockOutputs(s, n, arrived, depth, channels, ins);
    forall i | i in arrived ensures i in AddArrivals(arrived, ins) && AddArrivals(arrived, ins)[i] == arrived[i] {
      ArrivalsStay(arrived, ins, n, depth, i);
    }
    StretchJoin(released, Packets(Next(s, false, Encode(ins)).out), arrived, AddArrivals(arrived, ins));
  }

  // ----------------------------------------------------------------------------------
  // Progress
  // ----------------------------------------------------------------------------------

  ghost predicate AllBelow<D>(arrived: map<nat, D>, k: nat) {
    forall i | 0 <= i < k :: i in arrived
  }

  /** One clock reaches `k` or releases on every channel. */
  lemma ProgressStep<D>(arrived: map<nat, D>, n: nat, channels: nat, ins: seq<Option<Arrival<D>>>, k: nat)
    requires AllBelow(arrived, k)
    ensures n + Contiguous(arrived, n, channels) >= k || Contiguous(arrived, n, channels) == channels
    ensures AllBelow(AddArrivals(arrived, ins), k)
  {
    forall i | 0 <= i < k ensures i in AddArrivals(arrived, ins) {
      AddedArrivals(arrived, ins, i);
    }
  }

  /** The run quantities after one more clock. */
  lemma OneMore<D>(channels: nat, run: seq<seq<Option<Arrival<D>>>>, ins: seq<Option<Arrival<D>>>)
    ensures ArrivedBy(run + [ins]) == AddArrivals(ArrivedBy(run), ins)
    ensures CursorAfter(channels, run + [ins])
            == CursorAfter(channels, run) + Contiguous(ArrivedBy(run), CursorAfter(channels, run), channels)
  {
    assert (run + [ins])[..|run|] == run;
  }

  /** When everything below `k` has arrived, `more` clocks release everything below `k` or `channels` per clock. */
  lemma {:induction false} Progress<D>(channels: nat, run: seq<seq<Option<Arrival<D>>>>,
                                       more: seq<seq<Option<Arrival<D>>>>, k: nat)
    requires AllBelow(ArrivedBy(run), k)
    ensures CursorAfter(channels, run + more) >= k
            || CursorAfter(channels, run + more) >= CursorAfter(channels, run) + |more| * channels
    ensures AllBelow(ArrivedBy(run + more), k)
    decreases |more|
  {
    if more == [] {
      assert run + more == run;
    } else {
      var less, ins := more[..|more| - 1], more[|more| - 1];
      assert run + more == (run + less) + [ins];
      Progress(channels, run, less, k);
      OneMore(channels, run + less, ins);
      OneMoreTime(|more|, |less|, channels);
      ProgressStep(ArrivedBy(run + less), CursorAfter(channels, run + less), channels, ins, k);
    }
  }

  lemma OneMoreTime(a: nat, b: nat, n: nat)
    requires a == b + 1
    ensures a * n == b * n + n
  {
  }

  /** Rounding a quotient up is enough. */
  lemma CeilingSuffices(gap: int, m: nat, channels: nat)
    requires channels > 0 && m >= (gap + channels - 1) / channels
    ensures m * channels >= gap
  {
    var clocks := (gap + channels - 1) / channels;
    assert clocks * channels >= gap;
    if m > clocks { AtLeastOnce(m - clocks, channels); }
    assert m * channels == (m - clocks) * channels + clocks * channels;
  }

  /**
   The bound promised for the drain: once everything below `k` has arrived, the orders below
   `k` have been released after ceil((k - cursor) / channels) more clocks, whatever else
   arrives meanwhile.
   */
  lemma ProgressBound<D>(powerUp: seq<Slot<D>>, depth: nat, channels: nat,
                         run: seq<seq<Option<Arrival<D>>>>, more: seq<seq<Option<Arrival<D>>>>, k: nat)
    requires IsDepth(depth) && |powerUp| == depth && 0 < channels <= depth
    requires InWindow(depth, channels, run + more)
    requires AllBelow(ArrivedBy(run), k)
    requires |more| >= (k - CursorAfter(channels, run) + channels - 1) / channels
    ensures Run(channels, EncodeRun(run + more))
    ensures |Released(powerUp, channels, EncodeRun(run + more))| >= k
  {
    Progress(channels, run, more, k);
    CeilingSuffices(k - CursorAfter(channels, run), |more|, channels);
    ReleasedSoFar(powerUp, depth, channels, run + more);
  }
}
