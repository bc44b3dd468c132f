/**
 What a code on the output of the monitor says about the cause: for up to 599 channels it names
 the channel and the field, or the order, that some check objected to.
 */
module MonitorCodes {
  import opened Interface
  import opened Options
  import opened Rob
  import opened RobOrder
  import opened Shadow
  import opened ShadowPc
  import opened Monitor
  import opened MonitorRuns

  /** A packet that is stored meets an occupied slot. */
  ghost predicate Collides(s: Rob.State<Retired>, ins: Channels, low: nat)
    requires s.valid != []
  {
    exists c :: 0 <= c < |ins| && ins[c].Some? && s.valid[ins[c].value.order % |s.valid|]
                && ins[c].value.order % 256 == low
  }

  /** An occupied slot is drained for order `cursor + k` and holds another one. */
  ghost predicate DrainsWrong(s: Rob.State<Retired>, channels: nat, low: nat)
    requires |s.buffer| == |s.valid| > 0
  {
    exists k: nat :: k < channels && s.valid[SlotOf(s.cursor, k, |s.valid|)] && !RightAt(s.buffer, s.cursor, k)
                     && (s.cursor + k) % WRAP % 256 == low
  }

  /** What the packet on channel `c` is blamed for by a code of this kind. */
  ghost predicate Blamed(s: Machine, c: nat, kind: nat)
    requires c < |s.rob.out| && s.rob.out[c].Some? && s.registers.Sized()
  {
    var p, regs := s.rob.out[c].value.data, WriteAll(s.registers, Listed(s.rob.out[..c]));
    || (kind == 32 && !ReadOk(regs, p.rs2Addr, p.rs2Data))
    || (kind == 31 && !ReadOk(regs, p.rs1Addr, p.rs1Data))
    || (kind == 30 && var below := Listed(s.rob.out[..c]);
                      if below == [] then s.pc.valid && !p.intr && p.pcRead != s.pc.pc
                      else !LinkedInClock(below[|below| - 1], p))
  }

  /**
   What a code names: below 60000 a channel and a field of the packet on it, 60xxx the order of a
   packet that meets an occupied slot, 61xxx an order that is drained from a slot with another.
   */
  ghost predicate Named(s: Machine, ins: Channels, e: nat)
    requires |s.rob.buffer| == |s.rob.valid| > 0 && s.registers.Sized()
  {
    if e < 60000 then
      var c := e / 100 - 1;
      0 <= c < |s.rob.out| && s.rob.out[c].Some? && Blamed(s, c, e % 100)
    else if e < 61000 then Collides(s.rob, ins, e - 60000)
    else DrainsWrong(s.rob, |s.rob.out|, e - 61000)
  }

  lemma RegisterBlame(s: Machine, ins: Channels, c: nat)
    requires |s.rob.buffer| == |s.rob.valid| > 0 && s.registers.Sized() && c < |s.rob.out| <= 599
    requires RegisterCodes(s.registers, s.rob.out)[c] != 0
    ensures Named(s, ins, RegisterCodes(s.registers, s.rob.out)[c])
  {
    CodesTellSource(|s.rob.out|);
  }

  lemma PcBlame(s: Machine, ins: Channels, c: nat)
    requires |s.rob.buffer| == |s.rob.valid| > 0 && s.registers.Sized() && c < |s.rob.out| <= 599 && Sane(s.pc)
    requires PcCodes(s.pc, s.rob.out)[c] != 0
    ensures Named(s, ins, PcCodes(s.pc, s.rob.out)[c])
  {
    CodesTellSource(|s.rob.out|);
    MissingInterruptIsNeverReported(s.pc, s.rob.out, c);
    if s.rob.out[c].Some? { ChannelSilentIff(s.pc, s.rob.out, c); }
  }

  lemma RobBlame(s: Machine, ins: Channels)
    requires |s.rob.buffer| == |s.rob.valid| > 0 && s.registers.Sized() && |s.rob.out| == |ins|
    requires Rob.Next(s.rob, false, ins).errcode != 0
    ensures Named(s, ins, Rob.Next(s.rob, false, ins).errcode)
  {
    var rob := s.rob;
    var d, code := DrainCount(rob.valid, rob.cursor, |ins|), CollisionCode(rob.valid, ins);
    CollisionCodeRange(rob.valid, ins);
    DrainCodeMeaning(rob.buffer, rob.cursor, d, code);
    var c := CollisionCodeTells(rob.valid, ins);
    var k := DrainCodeTells(rob.buffer, rob.cursor, d, code);
    if Rob.Next(rob, false, ins).errcode >= 61000 {
      DrainedSlotsValid(rob.valid, rob.cursor, |ins|, k);
    }
  }

  /** Every code that is aggregated in a clock names what the clock before saw. */
  lemma Cause(s: Machine, input: Input, s': Machine, channelCodes: seq<nat>)
    requires |s.rob.buffer| == |s.rob.valid| > 0 && |s.rob.out| == |input.packets| <= 599 && s.registers.Sized()
    requires Sane(s.pc) && s' == MachineNext(s, input) && AllZero(channelCodes)
    requires Aggregate(AllCodes(s', channelCodes)) != 0
    ensures Named(s, input.packets, Aggregate(AllCodes(s', channelCodes)))
  {
    Priority(s', channelCodes);
    AggregateZero(channelCodes);
    if Aggregate(s'.registerCodes) != 0 {
      var r := AggregateIsLast(s'.registerCodes);
      RegisterBlame(s, input.packets, r);
    } else if Aggregate(s'.pcCodes) != 0 {
      var p := AggregateIsLast(s'.pcCodes);
      PcBlame(s, input.packets, p);
    } else {
      RobBlame(s, input.packets);
    }
  }

  lemma SaneThroughout(m: Setup, run: seq<Input>)
    requires m.Ok() && Driven(m.channels, run)
    ensures Sane(MachineAfter(m, run).pc)
  {
    if run != [] { PcOfMonitor(m, run); }
  }

  /** A code on the output, when no instruction check reports, names what the monitor saw two clocks before. */
  lemma Diagnosis(m: Setup, run: seq<Input>)
    requires m.Ok() && Driven(m.channels, run) && |run| >= 2 && m.channels <= 599
    requires AllZero(run[|run| - 1].channelCodes) && MachineAfter(m, run).errcode != 0
    ensures Named(MachineAfter(m, run[..|run| - 2]), run[|run| - 2].packets, MachineAfter(m, run).errcode)
  {
    var before, input := run[..|run| - 1], run[|run| - 1];
    var s := MachineAfter(m, run[..|run| - 2]);
    assert before[..|before| - 1] == run[..|run| - 2] && before[|before| - 1] == run[|run| - 2];
    SaneThroughout(m, run[..|run| - 2]);
    Cause(s, run[|run| - 2], MachineAfter(m, before), input.channelCodes);
  }
}
