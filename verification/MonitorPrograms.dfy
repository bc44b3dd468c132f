/**
 The monitor on cores that execute a program: a core which retires a sequential program within
 the reorder window never raises the output, and one that departs from it is reported within a
 bounded number of clocks.
 */
module MonitorPrograms {
  import opened Interface
  import opened Options
  import opened Rob
  import opened RobWindow
  import opened Shadow
  import opened ShadowPc
  import opened Monitor
  import opened MonitorRuns

  /** What the interface promises: a packet starts where its predecessor ended, or announces an interrupt entry. */
  ghost predicate Announced(ps: seq<Retired>) {
    forall k | 1 <= k < |ps| :: ps[k].intr || ps[k].pcRead == ps[k - 1].pcWrite
  }

  /** However an announced stream is cut into clocks, the monitor finds it linked. */
  lemma {:induction false} AnnouncedIsLinked(bs: seq<seq<Retired>>)
    requires Announced(Flat(bs))
    ensures LinkedBursts(bs)
  {
    if bs != [] {
      var a, b := Flat(bs[..|bs| - 1]), bs[|bs| - 1];
      var all := a + b;
      assert all == Flat(bs);
      assert Announced(a) by {
        assert forall k | 0 <= k < |a| :: all[k] == a[k];
      }
      AnnouncedIsLinked(bs[..|bs| - 1]);
      forall k | 1 <= k < |b| ensures LinkedInClock(b[k - 1], b[k]) {
        var i := |a| + k;
        assert all[i].intr || all[i].pcRead == all[i - 1].pcWrite;
      }
      if a != [] && b != [] {
        assert all[|a|].intr || all[|a|].pcRead == all[|a| - 1].pcWrite;
      }
    }
  }

  /** The arrivals of a run, driven into the monitor with quiet instruction checks. */
  function Drive(arrivals: seq<seq<Option<Arrival<Retired>>>>): (r: seq<Input>)
    ensures |r| == |arrivals|
  {
    seq(|arrivals|, t requires 0 <= t < |arrivals| => Input(Encode(arrivals[t]), []))
  }

  lemma DriveIsDriven(depth: nat, channels: nat, arrivals: seq<seq<Option<Arrival<Retired>>>>)
    requires InWindow(depth, channels, arrivals)
    ensures Driven(channels, Drive(arrivals))
    ensures PacketsOf(Drive(arrivals)) == EncodeRun(arrivals)
  {
    InWindowIsRun(depth, channels, arrivals);
    assert forall t | 0 <= t < |arrivals| :: EncodeRun(arrivals)[t] == Encode(arrivals[t]);
  }

  /** What a well-behaved run has released is an initial piece of the program. */
  lemma ReleasedIsProgram(m: Setup, arrivals: seq<seq<Option<Arrival<Retired>>>>, program: seq<Retired>)
    requires m.Ok() && IsDepth(|m.powerUp|) && m.channels <= |m.powerUp|
    requires InWindow(|m.powerUp|, m.channels, arrivals)
    requires forall i | i in ArrivedBy(arrivals) :: i < |program| && ArrivedBy(arrivals)[i] == program[i]
    ensures Driven(m.channels, Drive(arrivals))
    ensures ReleasedBy(m, Drive(arrivals)) <= program
    ensures MachineAfter(m, Drive(arrivals)).rob.errcode == 0
  {
    DriveIsDriven(|m.powerUp|, m.channels, arrivals);
    NothingLost(m.powerUp, |m.powerUp|, m.channels, arrivals);
    RobOfMonitor(m, Drive(arrivals));
    StretchOfProgram(Released(m.powerUp, m.channels, EncodeRun(arrivals)), ArrivedBy(arrivals), program);
  }

  lemma StretchOfProgram(released: seq<Slot<Retired>>, arrived: map<nat, Retired>, program: seq<Retired>)
    requires IsStretch(released, 0, arrived)
    requires forall i | i in arrived :: i < |program| && arrived[i] == program[i]
    ensures Datas(released) <= program
  {
    forall k | 0 <= k < |released| ensures k < |program| && released[k].data == program[k] {
      var p := released[k];
      assert 0 + k in arrived;
    }
    if released != [] {
      var p := released[|released| - 1];
      assert |released| - 1 < |program|;
    }
    assert Datas(released) == program[..|released|];
  }

  lemma SequentialPrefix(a: seq<Retired>, program: seq<Retired>)
    requires a <= program
    ensures Sequential(program) ==> Sequential(a)
    ensures Announced(program) ==> Announced(a) && Linked(a)
  {
    if Sequential(program) {
      forall k | 0 <= k < |a|
        ensures ReadsLatest(a, k, a[k].rs1Addr, a[k].rs1Data) && ReadsLatest(a, k, a[k].rs2Addr, a[k].rs2Data)
      {
        assert program[k] == a[k];
        ReadsLatestPrefix(a, program, k, a[k].rs1Addr, a[k].rs1Data);
        ReadsLatestPrefix(a, program, k, a[k].rs2Addr, a[k].rs2Data);
      }
    }
  }

  lemma ReadsLatestPrefix(a: seq<Retired>, program: seq<Retired>, k: nat, r: Reg, data: nat)
    requires a <= program && k < |a|
    requires ReadsLatest(program, k, r, data)
    ensures ReadsLatest(a, k, r, data)
  {
    assert forall j | 0 <= j < |a| :: a[j] == program[j];
    forall j: nat | LatestWrite(a, k, r, j) ensures data == a[j].rdData {
      assert LatestWrite(program, k, r, j);
    }
  }

  /** A shorter run of arrivals from the same program. */
  lemma ArrivalsBefore(depth: nat, channels: nat, arrivals: seq<seq<Option<Arrival<Retired>>>>, program: seq<Retired>)
    requires InWindow(depth, channels, arrivals) && arrivals != []
    requires forall i | i in ArrivedBy(arrivals) :: i < |program| && ArrivedBy(arrivals)[i] == program[i]
    ensures var before := arrivals[..|arrivals| - 1];
            && InWindow(depth, channels, before)
            && (forall i | i in ArrivedBy(before) :: i < |program| && ArrivedBy(before)[i] == program[i])
            && Drive(arrivals)[..|arrivals| - 1] == Drive(before)
  {
    var before, ins := arrivals[..|arrivals| - 1], arrivals[|arrivals| - 1];
    assert ArrivedBy(arrivals) == AddArrivals(ArrivedBy(before), ins);
    forall i | i in ArrivedBy(before) ensures i < |program| && ArrivedBy(before)[i] == program[i] {
      ArrivalsStay(ArrivedBy(before), ins, CursorAfter(channels, before), depth, i);
    }
  }

  lemma {:induction false} DriveRobSilent(m: Setup, arrivals: seq<seq<Option<Arrival<Retired>>>>, program: seq<Retired>)
    requires m.Ok() && IsDepth(|m.powerUp|) && m.channels <= |m.powerUp|
    requires InWindow(|m.powerUp|, m.channels, arrivals)
    requires forall i | i in ArrivedBy(arrivals) :: i < |program| && ArrivedBy(arrivals)[i] == program[i]
    ensures Driven(m.channels, Drive(arrivals))
    ensures RobSilent(m, Drive(arrivals))
    decreases |arrivals|
  {
    ReleasedIsProgram(m, arrivals, program);
    if arrivals != [] {
      ArrivalsBefore(|m.powerUp|, m.channels, arrivals, program);
      DriveRobSilent(m, arrivals[..|arrivals| - 1], program);
    }
  }

  /** The run without its last clock, as arrivals and as inputs. */
  lemma ArrivalsPast(depth: nat, channels: nat, arrivals: seq<seq<Option<Arrival<Retired>>>>, program: seq<Retired>)
    requires InWindow(depth, channels, arrivals)
    requires forall i | i in ArrivedBy(arrivals) :: i < |program| && ArrivedBy(arrivals)[i] == program[i]
    ensures var before := Past(arrivals, 1);
            && InWindow(depth, channels, before)
            && (forall i | i in ArrivedBy(before) :: i < |program| && ArrivedBy(before)[i] == program[i])
            && Past(Drive(arrivals), 1) == Drive(before)
  {
    if arrivals != [] { ArrivalsBefore(depth, channels, arrivals, program); }
  }

  lemma ReleasedOfProgram(m: Setup, past: seq<seq<Option<Arrival<Retired>>>>, program: seq<Retired>)
    requires m.Ok() && IsDepth(|m.powerUp|) && m.channels <= |m.powerUp|
    requires InWindow(|m.powerUp|, m.channels, past)
    requires forall i | i in ArrivedBy(past) :: i < |program| && ArrivedBy(past)[i] == program[i]
    requires Sequential(program) && Announced(program)
    ensures Driven(m.channels, Drive(past))
    ensures Sequential(ReleasedBy(m, Drive(past))) && LinkedBursts(Bursts(m, Drive(past)))
  {
    ReleasedIsProgram(m, past, program);
    SequentialPrefix(ReleasedBy(m, Drive(past)), program);
    BurstsAreReleased(m, Drive(past));
    AnnouncedIsLinked(Bursts(m, Drive(past)));
  }

  /**
   Completeness: a core that executes `program` sequentially, announces every discontinuity of
   the pc as the interface demands, and retires each instruction once and within the window of
   the reorder buffer, in any order and on any channels, never makes the output nonzero.
   */
  lemma Completeness(m: Setup, arrivals: seq<seq<Option<Arrival<Retired>>>>, program: seq<Retired>)
    requires m.Ok() && IsDepth(|m.powerUp|) && m.channels <= |m.powerUp|
    requires CodesVisible(m.channels)
    requires InWindow(|m.powerUp|, m.channels, arrivals)
    requires forall i | i in ArrivedBy(arrivals) :: i < |program| && ArrivedBy(arrivals)[i] == program[i]
    requires Sequential(program) && Announced(program)
    ensures Driven(m.channels, Drive(arrivals))
    ensures ErrcodeSilent(m, Drive(arrivals))
  {
    var before := Past(arrivals, 1);
    DriveIsDriven(|m.powerUp|, m.channels, arrivals);
    ArrivalsPast(|m.powerUp|, m.channels, arrivals, program);
    ArrivalsPast(|m.powerUp|, m.channels, before, program);
    DriveRobSilent(m, before, program);
    ReleasedOfProgram(m, Past(before, 1), program);
    PastOfPast(Drive(arrivals));
    ErrcodeMeaning(m, Drive(arrivals));
  }

  // ----------------------------------------------------------------------------------
  // Detection
  // ----------------------------------------------------------------------------------

  /** The first `k` instructions of what has arrived. */
  function FirstOf(arrived: map<nat, Retired>, k: nat): (ps: seq<Retired>)
    requires AllBelow(arrived, k)
    ensures |ps| == k
  {
    seq(k, i requires 0 <= i < k => arrived[i])
  }

  lemma StretchPrefix(released: seq<Slot<Retired>>, arrived: map<nat, Retired>, k: nat)
    requires IsStretch(released, 0, arrived) && k <= |released|
    ensures AllBelow(arrived, k)
    ensures FirstOf(arrived, k) <= Datas(released)
  {
    forall i | 0 <= i < k ensures i in arrived && released[i].data == arrived[i] {
      var p := released[i];
      assert 0 + i in arrived;
    }
  }

  lemma LinkedPrefix(a: seq<Retired>, b: seq<Retired>)
    requires a <= b && Linked(b)
    ensures Linked(a)
  {
    assert forall k | 0 <= k < |a| :: a[k] == b[k];
  }

  /**
   Detection: a core retires its instructions inside the window, and everything below `k` has
   arrived after `arrivals`.  If the output is still zero two clocks after the bound of the drain,
   whatever arrives in the meantime, then the first `k` instructions are a sequential execution;
   with one channel, or without traps, their program counters are linked too.
   */
  lemma Detection(m: Setup, arrivals: seq<seq<Option<Arrival<Retired>>>>, more: seq<seq<Option<Arrival<Retired>>>>,
                  k: nat, run: seq<Input>)
    requires m.Ok() && IsDepth(|m.powerUp|) && 0 < m.channels <= |m.powerUp|
    requires CodesVisible(m.channels)
    requires InWindow(|m.powerUp|, m.channels, arrivals + more)
    requires AllBelow(ArrivedBy(arrivals), k)
    requires |more| >= (k - CursorAfter(m.channels, arrivals) + m.channels - 1) / m.channels
    requires Driven(m.channels, run) && PacketsOf(Past(run, 2)) == EncodeRun(arrivals + more)
    requires ErrcodeSilent(m, run)
    ensures AllBelow(ArrivedBy(arrivals + more), k)
    ensures Sequential(FirstOf(ArrivedBy(arrivals + more), k))
    ensures m.channels == 1 || TrapFree(run) ==> Linked(FirstOf(ArrivedBy(arrivals + more), k))
  {
    var all := arrivals + more;
    ProgressBound(m.powerUp, |m.powerUp|, m.channels, arrivals, more, k);
    ReleasedSoFar(m.powerUp, |m.powerUp|, m.channels, all);
    var released := Released(m.powerUp, m.channels, EncodeRun(all));
    StretchPrefix(released, ArrivedBy(all), k);
    assert ReleasedBy(m, Past(run, 2)) == Datas(released);
    ErrcodeMeaning(m, run);
    SequentialPrefix(FirstOf(ArrivedBy(all), k), Datas(released));
    if m.channels == 1 || TrapFree(run) {
      ErrcodeMeaningInOrder(m, run);
      LinkedPrefix(FirstOf(ArrivedBy(all), k), Datas(released));
    }
  }
}
