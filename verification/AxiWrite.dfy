/**
 The AXI4 write observer of bus/rvfi_bus_axi4.sv.

 The observer sees the transfers of the AW, W and B channels and reports one write
 beat per cycle at most.  AW and W transfers wait for each other in two FIFOs; the
 response of a burst is guessed when its AW transfer is seen and the guess is
 confirmed when the B transfer is seen.
 */
module AxiWrite {
  import opened Options
  import opened Events
  import opened Powers
  import Fifo

  /** The AW fields the observer keeps. */
  datatype Address = Address(id: nat, addr: nat, len: nat, size: nat, burst: nat, prot: nat)

  /** What travels through the AW FIFO: an address and the guessed response of its burst. */
  datatype Tagged = Tagged(aw: Address, guess: nat)

  datatype WriteData = WriteData(data: nat, strb: nat, last: bool)

  /** One cycle of the three channels; payloads mean something only when the transfer bit is set. */
  datatype Signals = Signals(
    awTransfer: bool, aw: Address,
    wTransfer: bool, w: WriteData,
    bTransfer: bool, bresp: nat,
    guess: nat)

  /** A reported beat, with the burst registers as they are while it is reported. */
  datatype Beat = Beat(tagged: Tagged, w: WriteData, counter: nat, offset: nat)

  /** FIFO depth and size of the address space, a power of two. */
  datatype Config = Config(depth: nat, space: nat)

  datatype State = State(aws: seq<Tagged>, ws: seq<WriteData>, guesses: seq<nat>, counter: nat, offset: nat)

  /** The outcome of the assertions and of the assumption in one cycle. */
  datatype Checks = Checks(depthOk: bool, lastOk: bool, responseOk: bool, guessOk: bool)

  const RESET := State([], [], [], 0, 0)

  // ----------------------------------------------------------------------------------
  // One cycle
  // ----------------------------------------------------------------------------------

  function AwVisible(st: State, s: Signals): seq<Tagged> {
    if s.awTransfer then st.aws + [Tagged(s.aw, s.guess)] else st.aws
  }

  function WVisible(st: State, s: Signals): seq<WriteData> {
    if s.wTransfer then st.ws + [s.w] else st.ws
  }

  function GuessVisible(st: State, s: Signals): seq<nat> {
    if s.awTransfer then st.guesses + [s.guess] else st.guesses
  }

  /** A beat is reported when both FIFOs show an entry. */
  function Report(st: State, s: Signals): Option<Beat> {
    var aws, ws := AwVisible(st, s), WVisible(st, s);
    if aws != [] && ws != [] then Some(Beat(aws[0], ws[0], st.counter, st.offset)) else None
  }

  /** `w_fifo_out_valid && out_wlast`: the AW FIFO may move on. */
  predicate BurstEnds(st: State, s: Signals) {
    WVisible(st, s) != [] && WVisible(st, s)[0].last
  }

  /** The three DEPTH_too_small assertions. */
  predicate DepthOk(c: Config, st: State, s: Signals) {
    && (s.awTransfer ==> Fifo.Accepts(st.aws, c.depth, BurstEnds(st, s)))
    && (s.awTransfer ==> Fifo.Accepts(st.guesses, c.depth, s.bTransfer))
    && (s.wTransfer ==> Fifo.Accepts(st.ws, c.depth, AwVisible(st, s) != []))
  }

  /** A beat is the last of its burst exactly when the burst counter says so. */
  predicate LastOk(st: State, s: Signals) {
    var report := Report(st, s);
    report.Some? ==> (report.value.w.last <==> st.counter == report.value.tagged.aw.len)
  }

  predicate ResponseOk(st: State, s: Signals) {
    s.bTransfer ==> GuessVisible(st, s) != []
  }

  /** The assumption made at a B transfer. */
  predicate GuessOk(st: State, s: Signals) {
    s.bTransfer && GuessVisible(st, s) != [] ==> GuessVisible(st, s)[0] == s.bresp
  }

  function NextCounter(counter: nat, report: Option<Beat>): nat {
    if report.None? then counter else if report.value.w.last then 0 else (counter + 1) % 256
  }

  function NextOffset(c: Config, offset: nat, report: Option<Beat>): nat
    requires c.space > 0
  {
    if report.None? then offset
    else if report.value.w.last then 0
    else (offset + Pow2(report.value.tagged.aw.size)) % c.space
  }

  function Next(c: Config, st: State, s: Signals): State
    requires c.space > 0
  {
    var report := Report(st, s);
    State(
      Fifo.QueueNext(st.aws, c.depth, s.awTransfer, Tagged(s.aw, s.guess), BurstEnds(st, s)),
      Fifo.QueueNext(st.ws, c.depth, s.wTransfer, s.w, AwVisible(st, s) != []),
      Fifo.QueueNext(st.guesses, c.depth, s.awTransfer, s.guess, s.bTransfer),
      NextCounter(st.counter, report),
      NextOffset(c, st.offset, report))
  }

  /** The hardware: three FIFOs and the two burst registers. */
  class Observer {
    const config: Config
    const awFifo: Fifo.SyncFifo<Tagged>
    const wFifo: Fifo.SyncFifo<WriteData>
    const futureBFifo: Fifo.SyncFifo<nat>
    var burstCounter: nat
    var burstOffset: nat

    ghost predicate Valid()
      reads this, awFifo, wFifo, futureBFifo
    {
      && config.space > 0
      && awFifo as object != wFifo as object
      && awFifo as object != futureBFifo as object
      && wFifo as object != futureBFifo as object
      && awFifo as object != this && wFifo as object != this && futureBFifo as object != this
      && awFifo.Valid() && wFifo.Valid() && futureBFifo.Valid()
      && awFifo.depth == wFifo.depth == futureBFifo.depth == config.depth
    }

    ghost function Abstract(): State
      requires Valid()
      reads this, awFifo, wFifo, futureBFifo
    {
      State(awFifo.Contents(), wFifo.Contents(), futureBFifo.Contents(), burstCounter, burstOffset)
    }

    constructor (config: Config, aws: seq<Tagged>, ws: seq<WriteData>, guesses: seq<nat>)
      requires config.space > 0
      requires |aws| == |ws| == |guesses| == config.depth
      ensures Valid() && Abstract() == RESET && this.config == config
      ensures fresh(awFifo) && fresh(wFifo) && fresh(futureBFifo)
    {
      this.config := config;
      var aw := new Fifo.SyncFifo(config.depth, aws);
      var w := new Fifo.SyncFifo(config.depth, ws);
      var b := new Fifo.SyncFifo(config.depth, guesses);
      awFifo, wFifo, futureBFifo := aw, w, b;
      burstCounter, burstOffset := 0, 0;
    }

    /** The wires of a cycle: the reported beat, the assertions, and the two ready signals between the FIFOs. */
    method Sample(s: Signals) returns (report: Option<Beat>, checks: Checks, awOutReady: bool, wOutReady: bool)
      requires Valid()
      ensures report == Report(Abstract(), s)
      ensures checks.depthOk <==> DepthOk(config, Abstract(), s)
      ensures checks.lastOk <==> LastOk(Abstract(), s)
      ensures checks.responseOk <==> ResponseOk(Abstract(), s)
      ensures checks.guessOk <==> GuessOk(Abstract(), s)
      ensures awOutReady == BurstEnds(Abstract(), s)
      ensures wOutReady == (AwVisible(Abstract(), s) != [])
    {
      var wValid, outW := wFifo.Out(s.wTransfer, s.w);
      var awValid, outAw := awFifo.Out(s.awTransfer, Tagged(s.aw, s.guess));
      var bValid, outGuess := futureBFifo.Out(s.awTransfer, s.guess);
      awOutReady, wOutReady := wValid && outW.last, awValid;
      var awReady := awFifo.InReady(awOutReady);
      var wReady := wFifo.InReady(wOutReady);
      var bReady := futureBFifo.InReady(s.bTransfer);
      var fires := wValid && awValid;
      checks := Checks(
        (s.awTransfer ==> awReady) && (s.awTransfer ==> bReady) && (s.wTransfer ==> wReady),
        fires ==> (outW.last <==> burstCounter == outAw.aw.len),
        s.bTransfer ==> bValid,
        s.bTransfer ==> outGuess == s.bresp || !bValid);
      report := if fires then Some(Beat(outAw, outW, burstCounter, burstOffset)) else None;
    }

    /** The burst registers at a clock edge. */
    method ClockBurst(reset: bool, report: Option<Beat>)
      requires config.space > 0
      modifies this
      ensures burstCounter == if reset then 0 else NextCounter(old(burstCounter), report)
      ensures burstOffset == if reset then 0 else NextOffset(config, old(burstOffset), report)
    {
      if report.Some? {
        if report.value.w.last {
          burstCounter, burstOffset := 0, 0;
        } else {
          burstCounter := (burstCounter + 1) % 256;
          burstOffset := (burstOffset + Pow2(report.value.tagged.aw.size)) % config.space;
        }
      }
      if reset {
        burstCounter, burstOffset := 0, 0;
      }
    }

    /** One clock edge; the outputs are the wires just before it. */
    method Clock(reset: bool, s: Signals) returns (report: Option<Beat>, checks: Checks)
      requires Valid()
      modifies this, awFifo, wFifo, futureBFifo
      ensures Valid()
      ensures report == Report(old(Abstract()), s)
      ensures checks.depthOk <==> DepthOk(config, old(Abstract()), s)
      ensures checks.lastOk <==> LastOk(old(Abstract()), s)
      ensures checks.responseOk <==> ResponseOk(old(Abstract()), s)
      ensures checks.guessOk <==> GuessOk(old(Abstract()), s)
      ensures Abstract() == if reset then RESET else Next(config, old(Abstract()), s)
    {
      ghost var st := Abstract();
      var awOutReady, wOutReady;
      report, checks, awOutReady, wOutReady := Sample(s);
      awFifo.Clock(reset, s.awTransfer, Tagged(s.aw, s.guess), awOutReady);
      assert awFifo.Contents() == if reset then [] else Next(config, st, s).aws;
      wFifo.Clock(reset, s.wTransfer, s.w, wOutReady);
      assert wFifo.Contents() == if reset then [] else Next(config, st, s).ws;
      futureBFifo.Clock(reset, s.awTransfer, s.guess, s.bTransfer);
      ClockBurst(reset, report);
    }
  }

  // ----------------------------------------------------------------------------------
  // Whole runs from reset
  // ----------------------------------------------------------------------------------

  function After(c: Config, run: seq<Signals>): State
    requires c.space > 0
  {
    if run == [] then RESET else Next(c, After(c, run[..|run| - 1]), run[|run| - 1])
  }

  function ReportAt(c: Config, run: seq<Signals>, t: nat): Option<Beat>
    requires c.space > 0 && t < |run|
  {
    Report(After(c, run[..t]), run[t])
  }

  /** The DEPTH_too_small assertions hold throughout. */
  ghost predicate DepthSuffices(c: Config, run: seq<Signals>)
    requires c.space > 0
  {
    forall t | 0 <= t < |run| :: DepthOk(c, After(c, run[..t]), run[t])
  }

  /** They hold in the first `t` cycles. */
  ghost predicate SufficesBefore(c: Config, run: seq<Signals>, t: nat)
    requires c.space > 0 && t <= |run|
  {
    forall u | 0 <= u < t :: DepthOk(c, After(c, run[..u]), run[u])
  }

  function AwEvents(run: seq<Signals>): seq<Option<Tagged>> {
    seq(|run|, t requires 0 <= t < |run| => if run[t].awTransfer then Some(Tagged(run[t].aw, run[t].guess)) else None)
  }

  function WEvents(run: seq<Signals>): seq<Option<WriteData>> {
    seq(|run|, t requires 0 <= t < |run| => if run[t].wTransfer then Some(run[t].w) else None)
  }

  /** Number of bursts completed by the first `j` W beats: the burst that beat `j` belongs to. */
  function BurstOf(ws: seq<WriteData>, j: nat): nat
    requires j <= |ws|
  {
    if j == 0 then 0 else BurstOf(ws, j - 1) + if ws[j - 1].last then 1 else 0
  }

  /** Position of beat `j` in its burst. */
  function BeatInBurst(ws: seq<WriteData>, j: nat): nat
    requires j <= |ws|
  {
    if j == 0 || ws[j - 1].last then 0 else BeatInBurst(ws, j - 1) + 1
  }

  /** Beat `j` can be reported: the AW transfer of its burst happens within the run. */
  predicate Served(run: seq<Signals>, j: nat) {
    j < |Payloads(WEvents(run))| && BurstOf(Payloads(WEvents(run)), j) < |Payloads(AwEvents(run))|
  }

  function Max(a: nat, b: nat): nat {
    if a < b then b else a
  }

  lemma ServedBefore(run: seq<Signals>, j: nat)
    requires Served(run, j)
    ensures j > 0 ==> Served(run, j - 1)
  {
  }

  /** The first cycle by which beat `j` and the AW transfer of its burst have both happened. */
  function AvailableCycle(run: seq<Signals>, j: nat): nat
    requires Served(run, j)
  {
    SameLength(WEvents(run));
    SameLength(AwEvents(run));
    Max(Cycles(WEvents(run))[j], Cycles(AwEvents(run))[BurstOf(Payloads(WEvents(run)), j)])
  }

  /** The cycle the note at the head of the source promises for beat `j`. */
  function DueCycle(run: seq<Signals>, j: nat): nat
    requires Served(run, j)
  {
    ServedBefore(run, j);
    Max(AvailableCycle(run, j), if j == 0 then 0 else DueCycle(run, j - 1) + 1)
  }

  /** Beat `j` of a W log, paired with the AW transfer of its burst. */
  function BeatOf(c: Config, aws: seq<Tagged>, ws: seq<WriteData>, j: nat): Beat
    requires c.space > 0 && j < |ws| && BurstOf(ws, j) < |aws|
  {
    var tagged := aws[BurstOf(ws, j)];
    Beat(tagged, ws[j], BeatInBurst(ws, j) % 256, (BeatInBurst(ws, j) * Pow2(tagged.aw.size)) % c.space)
  }

  /** Beat `j` of the run as the observer should report it. */
  function DueBeat(c: Config, run: seq<Signals>, j: nat): Beat
    requires c.space > 0
    requires Served(run, j)
  {
    BeatOf(c, Payloads(AwEvents(run)), Payloads(WEvents(run)), j)
  }
}
