/**
 The monitor of monitor/generate.py as a pipeline: the reorder buffer, the shadow register
 file and shadow pc one clock behind it, and the aggregated error code one clock behind those.

 The codes of the instruction checks (`ch_errcode`) come from the instruction models and are
 an input here.
 */
module Monitor {
  import opened Rob
  import opened Shadow
  import opened ShadowPc

  /** One clock without reset: the packets on the input channels and the registered instruction codes. */
  datatype Input = Input(packets: Channels, channelCodes: seq<nat>)

  datatype Machine = Machine(
    rob: Rob.State<Retired>,
    registers: Registers, registerCodes: seq<nat>,
    pc: Pc, pcCodes: seq<nat>,
    errcode: nat)
  {
    ghost predicate Sized(depth: nat, channels: nat) {
      rob.Sized(depth, channels) && registers.Sized()
    }
  }

  /** The last code that is not zero, if there is one. */
  function Aggregate(codes: seq<nat>): nat {
    if codes == [] then 0
    else if codes[|codes| - 1] != 0 then codes[|codes| - 1]
    else Aggregate(codes[..|codes| - 1])
  }

  lemma {:induction false} AggregateZero(codes: seq<nat>)
    ensures Aggregate(codes) == 0 <==> forall i | 0 <= i < |codes| :: codes[i] == 0
  {
    if codes != [] { AggregateZero(codes[..|codes| - 1]); }
  }

  /** Which code it is: all later ones are zero. */
  lemma {:induction false} AggregateIsLast(codes: seq<nat>) returns (i: nat)
    ensures Aggregate(codes) != 0 ==>
              i < |codes| && codes[i] == Aggregate(codes) && forall j | i < j < |codes| :: codes[j] == 0
  {
    i := 0;
    if codes != [] {
      if codes[|codes| - 1] != 0 {
        i := |codes| - 1;
      } else {
        i := AggregateIsLast(codes[..|codes| - 1]);
      }
    }
  }

  /** Codes further back count only when there is none in front. */
  lemma {:induction false} AggregateAppend(a: seq<nat>, b: seq<nat>)
    ensures Aggregate(a + b) == if Aggregate(b) != 0 then Aggregate(b) else Aggregate(a)
    decreases |b|
  {
    if b == [] {
      assert a + b == a;
    } else {
      assert (a + b)[..|a + b| - 1] == a + b[..|b| - 1];
      AggregateAppend(a, b[..|b| - 1]);
    }
  }

  /** All codes of a clock, in the order in which the emitted code looks at them. */
  function AllCodes(s: Machine, channelCodes: seq<nat>): seq<nat> {
    channelCodes + [s.rob.errcode] + s.pcCodes + s.registerCodes
  }

  /** Register codes override pc codes, these the code of the reorder buffer, and that the instruction codes. */
  lemma Priority(s: Machine, channelCodes: seq<nat>)
    ensures Aggregate(AllCodes(s, channelCodes)) ==
              if Aggregate(s.registerCodes) != 0 then Aggregate(s.registerCodes)
              else if Aggregate(s.pcCodes) != 0 then Aggregate(s.pcCodes)
              else if s.rob.errcode != 0 then s.rob.errcode
              else Aggregate(channelCodes)
  {
    AggregateAppend(channelCodes, [s.rob.errcode]);
    AggregateAppend(channelCodes + [s.rob.errcode], s.pcCodes);
    AggregateAppend(channelCodes + [s.rob.errcode] + s.pcCodes, s.registerCodes);
    assert [s.rob.errcode][..0] == [];
  }

  function MachineNext(s: Machine, input: Input): Machine
    requires |s.rob.buffer| == |s.rob.valid| > 0 && |s.rob.out| == |input.packets| && s.registers.Sized()
  {
    Machine(Rob.Next(s.rob, false, input.packets),
            WriteAll(s.registers, Listed(s.rob.out)), RegisterCodes(s.registers, s.rob.out),
            FollowAll(s.pc, Listed(s.rob.out)), PcCodes(s.pc, s.rob.out),
            Aggregate(AllCodes(s, input.channelCodes)))
  }

  /** The registers after a reset; the buffer, the shadow registers and the shadow pc keep what they hold. */
  function MachineReset(powerUp: seq<Slot<Retired>>, values: seq<nat>, pc: nat, channels: nat): Machine
    requires |values| == 32
  {
    Machine(Rob.ResetState(powerUp, channels), ResetRegisters(values), Silent(channels),
            ResetPc(pc), Silent(channels), 0)
  }

  /** A clock with reset: what has a reset value takes it, the rest stays. */
  function Cleared(s: Machine, input: Input): Machine
    requires |s.rob.buffer| == |s.rob.valid| > 0 && |s.rob.out| == |input.packets| && s.registers.Sized()
  {
    Machine(Rob.Next(s.rob, true, input.packets),
            ResetRegisters(s.registers.value), Silent(|s.rob.out|),
            ResetPc(s.pc.pc), Silent(|s.rob.out|),
            0)
  }

  class RuntimeMonitor {
    const rob: ReorderBuffer<Retired>
    const registers: ShadowRegisters
    const counter: ShadowCounter
    var errcode: nat

    ghost predicate Valid()
      reads this, rob, registers
    {
      && rob.Valid() && registers.Valid()
      && rob.channels == registers.channels == counter.channels
    }

    ghost function Abstract(): Machine
      reads this, rob, registers, counter
    {
      Machine(rob.Abstract(), registers.Abstract(), registers.codes, counter.Abstract(), counter.codes, errcode)
    }

    constructor (channels: nat, powerUp: seq<Slot<Retired>>, values: seq<nat>, pc: nat)
      requires powerUp != [] && |values| == 32
      ensures Valid() && Abstract() == MachineReset(powerUp, values, pc, channels)
      ensures fresh(rob) && fresh(registers) && fresh(counter)
    {
      var b := new ReorderBuffer(channels, powerUp);
      var r := new ShadowRegisters(channels, values);
      var p := new ShadowCounter(channels, pc);
      rob, registers, counter, errcode := b, r, p, 0;
    }

    /** Later codes override earlier ones. */
    method Collect(codes: seq<nat>) returns (code: nat)
      ensures code == Aggregate(codes)
    {
      code := 0;
      for i := 0 to |codes|
        invariant code == Aggregate(codes[..i])
      {
        assert codes[..i + 1][..i] == codes[..i];
        if codes[i] != 0 {
          code := codes[i];
        }
      }
      assert codes[..|codes|] == codes;
    }

    /** One clock; every part sees the registers of the others as they were. */
    method Clock(reset: bool, input: Input)
      requires Valid() && |input.packets| == rob.channels
      modifies this, rob, registers, counter
      ensures Valid()
      ensures Abstract() == if reset then Cleared(old(Abstract()), input) else MachineNext(old(Abstract()), input)
    {
      var released := rob.out;
      var code := Collect(input.channelCodes + [rob.errcode] + counter.codes + registers.codes);
      rob.Clock(reset, input.packets);
      registers.Clock(reset, released);
      counter.Clock(reset, released);
      errcode := if reset then 0 else code;
    }
  }

  // ----------------------------------------------------------------------------------
  // Whole runs from reset
  // ----------------------------------------------------------------------------------

  /** Every clock drives all channels. */
  predicate Driven(channels: nat, run: seq<Input>) {
    forall t | 0 <= t < |run| :: |run[t].packets| == channels
  }

  function PacketsOf(run: seq<Input>): (r: seq<Channels>)
    ensures |r| == |run|
  {
    seq(|run|, t requires 0 <= t < |run| => run[t].packets)
  }

  /** What the registers without a reset value hold, and the number of channels. */
  datatype Setup = Setup(powerUp: seq<Slot<Retired>>, values: seq<nat>, pc: nat, channels: nat) {
    predicate Ok() {
      powerUp != [] && |values| == 32
    }
  }

  function MachineAfter(m: Setup, run: seq<Input>): (s: Machine)
    requires m.Ok() && Driven(m.channels, run)
    ensures s.Sized(|m.powerUp|, m.channels)
  {
    if run == [] then MachineReset(m.powerUp, m.values, m.pc, m.channels)
    else MachineNext(MachineAfter(m, run[..|run| - 1]), run[|run| - 1])
  }

  /** The packets that the reorder buffer has released, in order. */
  function ReleasedBy(m: Setup, run: seq<Input>): seq<Retired>
    requires m.Ok() && Driven(m.channels, run)
  {
    Datas(Released(m.powerUp, m.channels, PacketsOf(run)))
  }

  lemma {:induction false} RobOfMonitor(m: Setup, run: seq<Input>)
    requires m.Ok() && Driven(m.channels, run)
    ensures MachineAfter(m, run).rob == Rob.After(m.powerUp, m.channels, PacketsOf(run))
  {
    if run != [] {
      var before := run[..|run| - 1];
      RobOfMonitor(m, before);
      assert PacketsOf(run)[..|run| - 1] == PacketsOf(before);
    }
  }

  lemma ReleasedByStep(m: Setup, run: seq<Input>)
    requires m.Ok() && Driven(m.channels, run) && run != []
    ensures ReleasedBy(m, run) == ReleasedBy(m, run[..|run| - 1]) + Listed(MachineAfter(m, run).rob.out)
  {
    RobOfMonitor(m, run);
    assert PacketsOf(run)[..|run| - 1] == PacketsOf(run[..|run| - 1]);
    DatasStep(m.powerUp, m.channels, PacketsOf(run), PacketsOf(run[..|run| - 1]));
  }

  lemma DatasStep(powerUp: seq<Slot<Retired>>, channels: nat, packets: seq<Channels>, before: seq<Channels>)
    requires powerUp != [] && Run(channels, packets) && packets != []
    requires before == packets[..|packets| - 1]
    ensures Datas(Released(powerUp, channels, packets))
         == Datas(Released(powerUp, channels, before)) + Listed(After(powerUp, channels, packets).out)
  {
    DatasAppend(Released(powerUp, channels, before), Packets(After(powerUp, channels, packets).out));
  }

  lemma DatasAppend(a: seq<Slot<Retired>>, b: seq<Slot<Retired>>)
    ensures Datas(a + b) == Datas(a) + Datas(b)
  {
  }

  lemma ReleasedNothing(m: Setup)
    requires m.Ok()
    ensures ReleasedBy(m, []) == []
  {
    assert PacketsOf([]) == [];
  }

  /** The shadow registers have seen exactly the packets released up to the previous clock. */
  lemma {:induction false} RegistersOfMonitor(m: Setup, run: seq<Input>)
    requires m.Ok() && Driven(m.channels, run) && run != []
    ensures MachineAfter(m, run).registers == WriteAll(ResetRegisters(m.values), ReleasedBy(m, run[..|run| - 1]))
    decreases |run|
  {
    var before := run[..|run| - 1];
    if before == [] {
      ReleasedNothing(m);
      IdleListed(m.channels);
    } else {
      RegistersOfMonitor(m, before);
      ReleasedByStep(m, before);
      WriteAllAppend(ResetRegisters(m.values), ReleasedBy(m, before[..|before| - 1]),
                     Listed(MachineAfter(m, before).rob.out));
    }
  }

  lemma {:induction false} IdleListed(channels: nat)
    ensures Listed(Idle(channels)) == []
  {
    if channels > 0 {
      IdleListed(channels - 1);
      var out: Channels := Idle(channels);
      assert out[..channels - 1] == Idle(channels - 1);
      ListedStep(out, channels - 1);
      assert out[..channels] == out;
    }
  }
}
