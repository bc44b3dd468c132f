/**
 The pass-through FIFO of bus/rvfi_bus_util.sv: a chain of single-entry stages.

 A stage is a register with a valid bit; stage 0 faces the input and the last stage
 faces the output.  The class below evaluates the chain the way the hardware does
 (wires forward for valid and data, wires backward for ready, then one register
 update per stage).  Its contracts say that the chain is a queue of capacity
 `depth` that forwards an input to the output within the same cycle.
 */
module Fifo {

  datatype Stage<T> = Stage(full: bool, buffered: T)

  // ----------------------------------------------------------------------------------
  // The abstract queue
  // ----------------------------------------------------------------------------------

  /** The queue takes an element when it has room or gives one away in the same cycle. */
  predicate Accepts<T>(q: seq<T>, depth: nat, outReady: bool) {
    |q| < depth || outReady
  }

  /** The queue with this cycle's input appended, when there is one and it is accepted. */
  function Pushed<T>(q: seq<T>, depth: nat, inValid: bool, inData: T, outReady: bool): seq<T> {
    if inValid && Accepts(q, depth, outReady) then q + [inData] else q
  }

  /** The queue after one cycle. */
  function QueueNext<T>(q: seq<T>, depth: nat, inValid: bool, inData: T, outReady: bool): seq<T> {
    var pushed := Pushed(q, depth, inValid, inData, outReady);
    if outReady && pushed != [] then pushed[1..] else pushed
  }

  // ----------------------------------------------------------------------------------
  // The chain of stages as a queue
  // ----------------------------------------------------------------------------------

  /** The buffered elements, the one closest to the output first. */
  function Queue<T>(stages: seq<Stage<T>>): seq<T> {
    if stages == [] then []
    else Queue(stages[1..]) + if stages[0].full then [stages[0].buffered] else []
  }

  /** A full stage has only full stages between itself and the output. */
  ghost predicate Packed<T>(stages: seq<Stage<T>>) {
    forall i, j | 0 <= i < j < |stages| :: stages[i].full ==> stages[j].full
  }

  /** In a packed chain the queue occupies the last stages, in reverse stage order. */
  lemma {:induction false} PackedLayout<T>(stages: seq<Stage<T>>)
    requires Packed(stages)
    ensures |Queue(stages)| <= |stages|
    ensures forall i | 0 <= i < |stages| :: stages[i].full <==> i >= |stages| - |Queue(stages)|
    ensures forall k | 0 <= k < |Queue(stages)| :: Queue(stages)[k] == stages[|stages| - 1 - k].buffered
  {
    if stages != [] {
      var rest := stages[1..];
      PackedLayout(rest);
      assert forall i | 0 <= i < |rest| :: rest[i] == stages[i + 1];
      if stages[0].full {
        assert |Queue(rest)| == |rest| by {
          if |rest| > 0 { assert rest[0].full; }
        }
      }
      forall i | 0 <= i < |stages|
        ensures stages[i].full <==> i >= |stages| - |Queue(stages)|
      {
        if i > 0 { assert stages[i] == rest[i - 1]; }
      }
    }
  }

  /** A chain laid out like queue `q` is packed and holds exactly `q`. */
  lemma {:induction false} LayoutIsQueue<T>(stages: seq<Stage<T>>, q: seq<T>)
    requires |q| <= |stages|
    requires forall i | 0 <= i < |stages| :: stages[i].full <==> i >= |stages| - |q|
    requires forall k | 0 <= k < |q| :: q[k] == stages[|stages| - 1 - k].buffered
    ensures Packed(stages) && Queue(stages) == q
  {
    if stages != [] {
      var rest := stages[1..];
      var q' := if stages[0].full then q[..|q| - 1] else q;
      LayoutIsQueue(rest, q');
    }
  }

  // ----------------------------------------------------------------------------------
  // The hardware
  // ----------------------------------------------------------------------------------

  /** The registers of one stage after a clock edge. */
  function StageNext<T>(s: Stage<T>, reset: bool, inValid: bool, inData: T, outReady: bool): Stage<T> {
    var inTxn := inValid && (outReady || !s.full);
    var outTxn := (inValid || s.full) && outReady;
    Stage(if reset then false else if inTxn != outTxn then inTxn else s.full,
          if inTxn then inData else s.buffered)
  }

  /** The stage in front of `k` others, in a chain that holds `q`. */
  ghost predicate StageHolds<T>(s: Stage<T>, q: seq<T>, k: nat) {
    (s.full <==> k < |q|) && (k < |q| ==> q[k] == s.buffered)
  }

  lemma PackedHolds<T>(stages: seq<Stage<T>>, i: nat, k: nat)
    requires Packed(stages) && i + k + 1 == |stages|
    ensures StageHolds(stages[i], Queue(stages), k)
  {
    PackedLayout(stages);
    assert |stages| - 1 - k == i;
  }

  lemma HoldsIsQueue<T>(stages: seq<Stage<T>>, q: seq<T>)
    requires |q| <= |stages|
    requires forall i | 0 <= i < |stages| :: StageHolds(stages[i], q, |stages| - 1 - i)
    ensures Packed(stages) && Queue(stages) == q
  {
    forall k | 0 <= k < |q| ensures q[k] == stages[|stages| - 1 - k].buffered {
      var i := |stages| - 1 - k;
      assert StageHolds(stages[i], q, |stages| - 1 - i) && |stages| - 1 - i == k;
    }
    LayoutIsQueue(stages, q);
  }

  /** Every stage has been clocked, with the `free` stages in front of the queue empty. */
  ghost predicate Clocked<T>(stages: seq<Stage<T>>, next: seq<Stage<T>>, free: nat, reset: bool, inValid: bool,
                             inData: T, outReady: bool)
    requires |next| == |stages|
  {
    forall i {:trigger next[i]} | 0 <= i < |stages| ::
      next[i] == StageNext(stages[i], reset, inValid || i > free,
                           if i > free then stages[i - 1].buffered else inData,
                           outReady || i + 1 < free)
  }

  /** One stage of a chain that holds `q`, and `q'` after the clock. */
  lemma ClockedStage<T>(stages: seq<Stage<T>>, next: seq<Stage<T>>, q: seq<T>, q': seq<T>, i: nat, k: nat, free: nat,
                        reset: bool, inValid: bool, inData: T, outReady: bool)
    requires |next| == |stages| && Clocked(stages, next, free, reset, inValid, inData, outReady)
    requires q' == if reset then [] else QueueNext(q, |stages|, inValid, inData, outReady)
    requires i + k + 1 == |stages| && free + |q| == |stages|
    requires StageHolds(stages[i], q, k)
    requires i > 0 ==> StageHolds(stages[i - 1], q, k + 1)
    ensures StageHolds(next[i], q', k)
  {
    assert i > free <==> k + 1 < |q|;
    assert i == free <==> k + 1 == |q|;
  }

  /** Clocking every stage of a chain that holds `q` gives a chain that holds the next queue. */
  lemma ClockedChain<T>(stages: seq<Stage<T>>, next: seq<Stage<T>>, free: nat, reset: bool, inValid: bool, inData: T,
                        outReady: bool)
    requires Packed(stages) && |next| == |stages|
    requires free + |Queue(stages)| == |stages|
    requires Clocked(stages, next, free, reset, inValid, inData, outReady)
    ensures Packed(next)
    ensures Queue(next) == if reset then [] else QueueNext(Queue(stages), |stages|, inValid, inData, outReady)
  {
    var q, n := Queue(stages), |stages|;
    var q' := if reset then [] else QueueNext(q, n, inValid, inData, outReady);
    forall i | 0 <= i < n ensures StageHolds(next[i], q', n - 1 - i) {
      var k := n - 1 - i;
      PackedHolds(stages, i, k);
      if i > 0 { PackedHolds(stages, i - 1, k + 1); }
      ClockedStage(stages, next, q, q', i, k, free, reset, inValid, inData, outReady);
    }
    HoldsIsQueue(next, q');
  }

  class SyncFifo<T(0)> {
    const depth: nat
    var stages: seq<Stage<T>>

    ghost predicate Valid()
      reads this
    {
      |stages| == depth && Packed(stages)
    }

    ghost function Contents(): (q: seq<T>)
      requires Valid()
      reads this
      ensures |q| <= depth
    {
      PackedLayout(stages);
      Queue(stages)
    }

    /** The state after a cycle with `reset` high: every valid bit is clear. */
    constructor (depth: nat, powerUp: seq<T>)
      requires |powerUp| == depth
      ensures Valid() && Contents() == [] && this.depth == depth
    {
      this.depth := depth;
      stages := seq(depth, i requires 0 <= i < depth => Stage(false, powerUp[i]));
      new;
      LayoutIsQueue(stages, []);
    }

    /** The wires between the stages: index i is in front of stage i, index `depth` is the output. */
    method Wires(inValid: bool, inData: T, outReady: bool)
      returns (stageValid: seq<bool>, stageData: seq<T>, stageReady: seq<bool>)
      requires Valid()
      ensures |stageValid| == |stageData| == |stageReady| == depth + 1
      ensures forall i | 0 <= i <= depth ::
                stageValid[i] == (inValid || i > depth - |Contents()|)
      ensures forall i | 0 <= i <= depth ::
                stageData[i] == if i > depth - |Contents()| then stages[i - 1].buffered else inData
      ensures forall i | 0 <= i <= depth ::
                stageReady[i] == (outReady || i < depth - |Contents()|)
    {
      PackedLayout(stages);
      stageValid, stageData := [inValid], [inData];
      for i := 0 to depth
        invariant |stageValid| == |stageData| == i + 1
        invariant forall j | 0 <= j <= i :: stageValid[j] == (inValid || j > depth - |Contents()|)
        invariant forall j | 0 <= j <= i ::
                    stageData[j] == if j > depth - |Contents()| then stages[j - 1].buffered else inData
      {
        stageValid := stageValid + [stageValid[i] || stages[i].full];
        stageData := stageData + [if stages[i].full then stages[i].buffered else stageData[i]];
      }
      stageReady := [outReady];
      for i := depth downto 0
        invariant |stageReady| == depth + 1 - i
        invariant forall m | 0 <= m < |stageReady| ::
                    stageReady[m] == (outReady || m + i < depth - |Contents()|)
      {
        stageReady := [stageReady[0] || !stages[i].full] + stageReady;
      }
    }

    /** The output wires do not wait for a clock edge: an input is visible at once. */
    method Out(inValid: bool, inData: T) returns (outValid: bool, outData: T)
      requires Valid()
      ensures outValid <==> inValid || Contents() != []
      ensures outData == (Contents() + [inData])[0]
    {
      PackedLayout(stages);
      var stageValid, stageData, _ := Wires(inValid, inData, false);
      outValid, outData := stageValid[depth], stageData[depth];
    }

    method InReady(outReady: bool) returns (inReady: bool)
      requires Valid()
      ensures inReady <==> Accepts(Contents(), depth, outReady)
    {
      PackedLayout(stages);
      inReady := outReady;
      for i := depth downto 0
        invariant inReady <==> outReady || i < depth - |Contents()|
      {
        inReady := inReady || !stages[i].full;
      }
    }

    /** One clock edge. */
    method Clock(reset: bool, inValid: bool, inData: T, outReady: bool)
      requires Valid()
      modifies this
      ensures Valid()
      ensures Contents() == if reset then [] else QueueNext(old(Contents()), depth, inValid, inData, outReady)
    {
      PackedLayout(stages);
      var stageValid, stageData, stageReady := Wires(inValid, inData, outReady);
      var next := [];
      for i := 0 to depth
        invariant |next| == i
        invariant forall j | 0 <= j < i ::
                    next[j] == StageNext(stages[j], reset, stageValid[j], stageData[j], stageReady[j + 1])
      {
        next := next + [StageNext(stages[i], reset, stageValid[i], stageData[i], stageReady[i + 1])];
      }
      ClockedChain(stages, next, depth - |Contents()|, reset, inValid, inData, outReady);
      stages := next;
    }
  }

  // ----------------------------------------------------------------------------------
  // Whole runs
  // ----------------------------------------------------------------------------------

  /** The signals a FIFO sees from its two neighbours in one cycle. */
  datatype Cycle<T> = Cycle(inValid: bool, inData: T, outReady: bool)

  /** The queue after a run from reset. */
  function QueueAfter<T>(depth: nat, run: seq<Cycle<T>>): seq<T> {
    if run == [] then []
    else
      var q := QueueAfter(depth, run[..|run| - 1]);
      var c := run[|run| - 1];
      QueueNext(q, depth, c.inValid, c.inData, c.outReady)
  }

  /** The elements that entered: `in_valid && in_ready` at the clock edge. */
  function Entered<T>(depth: nat, run: seq<Cycle<T>>): seq<T> {
    if run == [] then []
    else
      var q := QueueAfter(depth, run[..|run| - 1]);
      var c := run[|run| - 1];
      Entered(depth, run[..|run| - 1])
      + if c.inValid && Accepts(q, depth, c.outReady) then [c.inData] else []
  }

  /** The elements that left: `out_valid && out_ready` at the clock edge. */
  function Left<T>(depth: nat, run: seq<Cycle<T>>): seq<T> {
    if run == [] then []
    else
      var q := QueueAfter(depth, run[..|run| - 1]);
      var c := run[|run| - 1];
      Left(depth, run[..|run| - 1])
      + if (c.inValid || q != []) && c.outReady then [(q + [c.inData])[0]] else []
  }

  /** Nothing is lost, repeated or reordered, and the capacity is never exceeded. */
  lemma {:induction false} Conservation<T>(depth: nat, run: seq<Cycle<T>>)
    ensures Left(depth, run) + QueueAfter(depth, run) == Entered(depth, run)
    ensures |QueueAfter(depth, run)| <= depth
  {
    if run != [] {
      var before := run[..|run| - 1];
      Conservation(depth, before);
      var q, c := QueueAfter(depth, before), run[|run| - 1];
      var pushed := Pushed(q, depth, c.inValid, c.inData, c.outReady);
      assert Left(depth, before) + pushed == Entered(depth, run);
      if c.outReady && pushed != [] {
        assert pushed == [pushed[0]] + pushed[1..];
        assert Left(depth, run) == Left(depth, before) + [pushed[0]];
      }
    }
  }
}
