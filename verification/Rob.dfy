/**
 The reorder buffer emitted by monitor/generate.py.

 A direct-mapped ring of `depth` slots, indexed by the low bits of a 64-bit order.  Each
 clock first stores the packets of all channels and then drains consecutive orders, one
 per output channel.  Nonblocking assignments take effect at the end of the clock, so the
 drain sees the slots as they were before the packets of this clock were stored; `cursor`
 and `continue_flag` are blocking.
 */
module Rob {
  import opened Interface
  import opened Options
  import opened Powers

  datatype Slot<+D> = Slot(order: nat, data: D)

  /** The documented depths are the powers of two: the divisors of 2^64. */
  predicate IsDepth(depth: nat) {
    depth > 0 && WRAP % depth == 0
  }

  lemma OrdersHaveBits(n: nat)
    requires n == 64
    ensures WRAP == Pow2(n)
  {
    var k := n / 16;
    Pow2Doubled(1, 2, 2);
    Pow2Doubled(2, k, 4);
    Pow2Doubled(k, 2 * k, 16);
    Pow2Doubled(2 * k, 4 * k, 256);
    Pow2Doubled(4 * k, 8 * k, 0x1_0000);
    Pow2Doubled(8 * k, n, 0x1_0000_0000);
  }

  lemma DepthsArePowers(depth: nat)
    ensures IsDepth(depth) <==> exists k: nat :: k <= 64 && depth == Pow2(k)
  {
    var bits := 64;
    OrdersHaveBits(bits);
    if IsDepth(depth) {
      var k := DivisorOfPow2(depth, bits);
    }
    if k: nat :| k <= bits && depth == Pow2(k) {
      Pow2Divides(k, bits);
    }
  }

  datatype State<+D> = State(
    buffer: seq<Slot<D>>, valid: seq<bool>, cursor: nat,
    out: seq<Option<Slot<D>>>, errcode: nat)
  {
    ghost predicate Sized(depth: nat, channels: nat) {
      |buffer| == |valid| == depth && |out| == channels && cursor < WRAP
    }
  }

  // ----------------------------------------------------------------------------------
  // One clock
  // ----------------------------------------------------------------------------------

  /** The ring index of the `k`-th order after the cursor. */
  function SlotOf(cursor: nat, k: nat, depth: nat): nat
    requires depth > 0
  {
    ((cursor + k) % WRAP) % depth
  }

  function InsertBuffer<D>(buffer: seq<Slot<D>>, ins: seq<Option<Slot<D>>>): (r: seq<Slot<D>>)
    requires buffer != []
    ensures |r| == |buffer|
  {
    if ins == [] then buffer
    else
      var rest, last := InsertBuffer(buffer, ins[..|ins| - 1]), ins[|ins| - 1];
      if last.Some? then rest[last.value.order % |buffer| := last.value] else rest
  }

  function InsertValid<D>(valid: seq<bool>, ins: seq<Option<Slot<D>>>): (r: seq<bool>)
    requires valid != []
    ensures |r| == |valid|
  {
    if ins == [] then valid
    else
      var rest, last := InsertValid(valid, ins[..|ins| - 1]), ins[|ins| - 1];
      if last.Some? then rest[last.value.order % |valid| := true] else rest
  }

  /** Code 60xxx: a packet is stored into a slot that was in use; the last channel wins. */
  function CollisionCode<D>(valid: seq<bool>, ins: seq<Option<Slot<D>>>): nat
    requires valid != []
  {
    if ins == [] then 0
    else
      var last := ins[|ins| - 1];
      if last.Some? && valid[last.value.order % |valid|] then 60000 + last.value.order % 256
      else CollisionCode(valid, ins[..|ins| - 1])
  }

  /** How many orders the first `n` output channels drain. */
  function DrainCount(valid: seq<bool>, cursor: nat, n: nat): (d: nat)
    requires valid != []
    ensures d <= n
  {
    if n == 0 then 0
    else
      var d := DrainCount(valid, cursor, n - 1);
      if d == n - 1 && valid[SlotOf(cursor, d, |valid|)] then n else d
  }

  function ClearValid(valid: seq<bool>, cursor: nat, d: nat): (r: seq<bool>)
    requires valid != []
    ensures |r| == |valid|
  {
    if d == 0 then valid else ClearValid(valid, cursor, d - 1)[SlotOf(cursor, d - 1, |valid|) := false]
  }

  /** The slot of the `k`-th order after the cursor holds this order. */
  predicate RightAt<D>(buffer: seq<Slot<D>>, cursor: nat, k: nat)
    requires buffer != []
  {
    buffer[SlotOf(cursor, k, |buffer|)].order == (cursor + k) % WRAP
  }

  /** Code 61xxx: a drained slot holds another order than the cursor; it overrides earlier codes. */
  function DrainCode<D>(buffer: seq<Slot<D>>, cursor: nat, d: nat, code: nat): nat
    requires buffer != []
  {
    if d == 0 then code
    else if !RightAt(buffer, cursor, d - 1)
    then 61000 + ((cursor + (d - 1)) % WRAP) % 256
    else DrainCode(buffer, cursor, d - 1, code)
  }

  function DrainOut<D>(buffer: seq<Slot<D>>, cursor: nat, d: nat, channels: nat): seq<Option<Slot<D>>>
    requires buffer != []
  {
    seq(channels, c requires 0 <= c < channels =>
      if c < d then Some(buffer[SlotOf(cursor, c, |buffer|)]) else None)
  }

  lemma CursorStep(cursor: nat, d: nat)
    ensures ((cursor + d) % WRAP + 1) % WRAP == (cursor + (d + 1)) % WRAP
  {
    ModAdd(cursor + d, 1, WRAP);
  }

  /** What draining one more order, `order` in `slot`, does to the registers. */
  lemma DrainStep<D>(buffer: seq<Slot<D>>, stored: seq<bool>, cursor: nat, d: nat, code: nat,
                     channels: nat, order: nat, slot: nat)
    requires buffer != [] && |stored| == |buffer| && d < channels
    requires order == (cursor + d) % WRAP && slot == order % |buffer|
    ensures DrainOut(buffer, cursor, d + 1, channels)
            == DrainOut(buffer, cursor, d, channels)[d := Some(buffer[slot])]
    ensures ClearValid(stored, cursor, d + 1) == ClearValid(stored, cursor, d)[slot := false]
    ensures DrainCode(buffer, cursor, d + 1, code)
            == if buffer[slot].order != order then 61000 + order % 256 else DrainCode(buffer, cursor, d, code)
    ensures (order + 1) % WRAP == (cursor + (d + 1)) % WRAP
  {
    assert slot == SlotOf(cursor, d, |buffer|);
    CursorStep(cursor, d);
  }

  function Idle<D>(channels: nat): seq<Option<Slot<D>>> {
    seq(channels, c => None)
  }

  /** The registers after one clock. */
  function Next<D>(s: State<D>, reset: bool, ins: seq<Option<Slot<D>>>): (r: State<D>)
    requires |s.buffer| == |s.valid| > 0
    requires |ins| == |s.out|
    ensures |r.buffer| == |s.buffer| && |r.valid| == |s.valid| && |r.out| == |s.out|
  {
    if reset then
      State(s.buffer, seq(|s.valid|, i => false), 0, Idle(|s.out|), 0)
    else
      var d := DrainCount(s.valid, s.cursor, |ins|);
      State(InsertBuffer(s.buffer, ins),
            ClearValid(InsertValid(s.valid, ins), s.cursor, d),
            (s.cursor + d) % WRAP,
            DrainOut(s.buffer, s.cursor, d, |ins|),
            DrainCode(s.buffer, s.cursor, d, CollisionCode(s.valid, ins)))
  }

  /** The emitted module. */
  class ReorderBuffer<D(0)> {
    const depth: nat
    const channels: nat
    var buffer: seq<Slot<D>>
    var valid: seq<bool>
    var cursor: nat
    var out: seq<Option<Slot<D>>>
    var errcode: nat

    ghost predicate Valid()
      reads this
    {
      depth > 0 && Abstract().Sized(depth, channels)
    }

    ghost function Abstract(): State<D>
      reads this
    {
      State(buffer, valid, cursor, out, errcode)
    }

    /** The registers after a reset; `buffer` has no reset. */
    constructor (channels: nat, powerUp: seq<Slot<D>>)
      requires powerUp != []
      ensures Valid() && depth == |powerUp| && this.channels == channels
      ensures Abstract() == ResetState(powerUp, channels)
    {
      depth, this.channels := |powerUp|, channels;
      buffer, valid, cursor := powerUp, seq(|powerUp|, i => false), 0;
      out, errcode := Idle(channels), 0;
    }

    /** The storing half of a clock: the values that the registers take at its end. */
    method Store(ins: seq<Option<Slot<D>>>)
      returns (nextBuffer: seq<Slot<D>>, nextValid: seq<bool>, nextErrcode: nat)
      requires Valid() && |ins| == channels
      ensures buffer != [] && valid != []
      ensures nextBuffer == InsertBuffer(buffer, ins)
      ensures nextValid == InsertValid(valid, ins)
      ensures nextErrcode == CollisionCode(valid, ins)
    {
      assert |buffer| == |valid| == depth > 0;
      nextErrcode, nextBuffer, nextValid := 0, buffer, valid;
      for c := 0 to channels
        invariant nextBuffer == InsertBuffer(buffer, ins[..c])
        invariant nextValid == InsertValid(valid, ins[..c])
        invariant nextErrcode == CollisionCode(valid, ins[..c])
      {
        assert ins[..c + 1][..c] == ins[..c];
        if ins[c].Some? {
          if valid[ins[c].value.order % depth] {
            nextErrcode := 60000 + ins[c].value.order % 256;
          }
          nextBuffer := nextBuffer[ins[c].value.order % depth := ins[c].value];
          nextValid := nextValid[ins[c].value.order % depth := true];
        }
      }
      assert ins[..channels] == ins;
    }

    /** The draining half of a clock, after `stored` and `code` have been computed. */
    method Drain(stored: seq<bool>, code: nat)
      returns (nextOut: seq<Option<Slot<D>>>, nextValid: seq<bool>, nextErrcode: nat, nextCursor: nat)
      requires Valid() && buffer != [] && valid != [] && |stored| == depth
      ensures var d := DrainCount(valid, cursor, channels);
              && nextOut == DrainOut(buffer, cursor, d, channels)
              && nextValid == ClearValid(stored, cursor, d)
              && nextErrcode == DrainCode(buffer, cursor, d, code)
              && nextCursor == (cursor + d) % WRAP
    {
      nextOut, nextValid, nextErrcode, nextCursor := Idle(channels), stored, code, cursor;
      var continueFlag := true;
      ghost var d := 0;
      for c := 0 to channels
        invariant d == DrainCount(valid, cursor, c)
        invariant continueFlag <==> d == c
        invariant nextCursor == (cursor + d) % WRAP
        invariant nextValid == ClearValid(stored, cursor, d)
        invariant nextErrcode == DrainCode(buffer, cursor, d, code)
        invariant nextOut == DrainOut(buffer, cursor, d, channels)
      {
        var slot := nextCursor % depth;
        assert slot == SlotOf(cursor, d, depth);
        if continueFlag && valid[slot] {
          DrainStep(buffer, stored, cursor, d, code, channels, nextCursor, slot);
          if buffer[slot].order != nextCursor {
            nextErrcode := 61000 + nextCursor % 256;
          }
          nextOut := nextOut[c := Some(buffer[slot])];
          nextValid := nextValid[slot := false];
          nextCursor := (nextCursor + 1) % WRAP;
          d := d + 1;
        } else {
          continueFlag := false;
        }
      }
    }

    method Clock(reset: bool, ins: seq<Option<Slot<D>>>)
      requires Valid() && |ins| == channels
      modifies this
      ensures Valid()
      ensures Abstract() == Next(old(Abstract()), reset, ins)
    {
      if reset {
        valid, cursor := seq(depth, i => false), 0;
        out, errcode := Idle(channels), 0;
      } else {
        var nextBuffer, stored, code := Store(ins);
        var nextOut, nextValid, nextErrcode, nextCursor := Drain(stored, code);
        ghost var next := Next(Abstract(), false, ins);
        assert next == State(nextBuffer, nextValid, nextCursor, nextOut, nextErrcode);
        buffer, valid, cursor := nextBuffer, nextValid, nextCursor;
        out, errcode := nextOut, nextErrcode;
      }
    }
  }

  // ----------------------------------------------------------------------------------
  // Whole runs from reset
  // ----------------------------------------------------------------------------------

  function ResetState<D>(powerUp: seq<Slot<D>>, channels: nat): State<D> {
    State(powerUp, seq(|powerUp|, i => false), 0, Idle(channels), 0)
  }

  /** A run gives the packets of every channel in every clock. */
  predicate Run<D>(channels: nat, run: seq<seq<Option<Slot<D>>>>) {
    forall t | 0 <= t < |run| :: |run[t]| == channels
  }

  function After<D>(powerUp: seq<Slot<D>>, channels: nat, run: seq<seq<Option<Slot<D>>>>): (s: State<D>)
    requires powerUp != [] && Run(channels, run)
    ensures s.Sized(|powerUp|, channels)
  {
    if run == [] then ResetState(powerUp, channels)
    else Next(After(powerUp, channels, run[..|run| - 1]), false, run[|run| - 1])
  }

  /** The packets on the output channels, in channel order. */
  function Packets<D>(out: seq<Option<Slot<D>>>): seq<Slot<D>> {
    if out == [] then []
    else
      var last := out[|out| - 1];
      Packets(out[..|out| - 1]) + if last.Some? then [last.value] else []
  }

  /** Everything that has left the buffer, in the order in which it left. */
  function Released<D>(powerUp: seq<Slot<D>>, channels: nat, run: seq<seq<Option<Slot<D>>>>): seq<Slot<D>>
    requires powerUp != [] && Run(channels, run)
  {
    if run == [] then []
    else Released(powerUp, channels, run[..|run| - 1]) + Packets(After(powerUp, channels, run).out)
  }
}
