/**
 The shadow state of the monitor emitted by monitor/generate.py: a register file and a
 program counter that follow the reordered packets and are compared with them.

 Several packets can leave the reorder buffer in one clock.  The emitted logic compares
 each of them with the registers at the start of the clock, overlaid with the writes of
 the lower channels of the same clock.  The specification handles one packet at a time.
 */
module Shadow {
  import opened Interface
  import opened Options
  import opened Rob

  /** The fields of a packet that pass through the reorder buffer. */
  datatype Retired = Retired(
    rs1Addr: Reg, rs2Addr: Reg, rdAddr: Reg,
    rs1Data: nat, rs2Data: nat, rdData: nat,
    pcRead: nat, pcWrite: nat, intr: bool, trap: bool)

  type Channels = seq<Option<Slot<Retired>>>

  function Datas(packets: seq<Slot<Retired>>): (r: seq<Retired>)
    ensures |r| == |packets|
  {
    seq(|packets|, k requires 0 <= k < |packets| => packets[k].data)
  }

  /** The packets of a clock, lowest channel first. */
  function Listed(out: Channels): seq<Retired> {
    Datas(Packets(out))
  }

  /** Error codes are 16 bits wide. */
  function Code(channel: nat, kind: nat): nat {
    (100 * (1 + channel) + kind) % 0x1_0000
  }

  lemma ListedStep(out: Channels, c: nat)
    requires c < |out|
    ensures out[c].Some? ==> Listed(out[..c + 1]) == Listed(out[..c]) + [out[c].value.data]
    ensures out[c].None? ==> Listed(out[..c + 1]) == Listed(out[..c])
  {
    assert out[..c + 1][..c] == out[..c];
  }

  // ----------------------------------------------------------------------------------
  // The register file, one packet at a time
  // ----------------------------------------------------------------------------------

  datatype Registers = Registers(known: seq<bool>, value: seq<nat>) {
    ghost predicate Sized() {
      |known| == |value| == 32
    }
  }

  /** After reset only x0 is known; the other values keep whatever they were. */
  function ResetRegisters(value: seq<nat>): Registers
    requires |value| == 32
  {
    Registers(seq(32, r => r == 0), value[0 := 0])
  }

  /** A read agrees with the register file unless the register is known to hold something else. */
  predicate ReadOk(regs: Registers, r: Reg, data: nat)
    requires regs.Sized()
  {
    regs.known[r] ==> regs.value[r] == data
  }

  predicate ReadsOk(regs: Registers, p: Retired)
    requires regs.Sized()
  {
    ReadOk(regs, p.rs1Addr, p.rs1Data) && ReadOk(regs, p.rs2Addr, p.rs2Data)
  }

  function RegisterCode(regs: Registers, p: Retired, channel: nat): nat
    requires regs.Sized()
  {
    if !ReadOk(regs, p.rs2Addr, p.rs2Data) then Code(channel, 32)
    else if !ReadOk(regs, p.rs1Addr, p.rs1Data) then Code(channel, 31)
    else 0
  }

  function Write(regs: Registers, p: Retired): (r: Registers)
    requires regs.Sized()
    ensures r.Sized()
  {
    Registers(regs.known[p.rdAddr := true], regs.value[p.rdAddr := p.rdData])
  }

  function WriteAll(regs: Registers, ps: seq<Retired>): (r: Registers)
    requires regs.Sized()
    ensures r.Sized()
  {
    if ps == [] then regs else Write(WriteAll(regs, ps[..|ps| - 1]), ps[|ps| - 1])
  }

  lemma WriteNext(regs: Registers, ps: seq<Retired>, p: Retired)
    requires regs.Sized()
    ensures WriteAll(regs, ps + [p]) == Write(WriteAll(regs, ps), p)
  {
    assert (ps + [p])[..|ps|] == ps;
  }

  /** The writes of the first channels of a clock. */
  lemma WriteChannel(regs: Registers, out: Channels, c: nat)
    requires regs.Sized() && c < |out|
    ensures WriteAll(regs, Listed(out[..c + 1]))
            == if out[c].Some? then Write(WriteAll(regs, Listed(out[..c])), out[c].value.data)
               else WriteAll(regs, Listed(out[..c]))
  {
    ListedStep(out, c);
    var before, upTo := Listed(out[..c]), Listed(out[..c + 1]);
    if out[c].Some? {
      WriteNext(regs, before, out[c].value.data);
      assert upTo == before + [out[c].value.data];
    } else {
      assert upTo == before;
    }
  }

  /** Every packet of the list is compared with the register file left by the packets before it. */
  ghost predicate AllReadsOk(regs: Registers, ps: seq<Retired>)
    requires regs.Sized()
  {
    forall k | 0 <= k < |ps| :: ReadsOk(WriteAll(regs, ps[..k]), ps[k])
  }

  /** The code of each channel, one packet at a time. */
  function RegisterCodes(regs: Registers, out: Channels): seq<nat>
    requires regs.Sized()
  {
    seq(|out|, c requires 0 <= c < |out| =>
      if out[c].Some? then RegisterCode(WriteAll(regs, Listed(out[..c])), out[c].value.data, c) else 0)
  }

  function Silent(channels: nat): seq<nat> {
    seq(channels, c => 0)
  }

  class ShadowRegisters {
    const channels: nat
    var known: seq<bool>
    var value: seq<nat>
    var codes: seq<nat>

    ghost predicate Valid()
      reads this
    {
      |known| == |value| == 32
    }

    ghost function Abstract(): Registers
      reads this
    {
      Registers(known, value)
    }

    constructor (channels: nat, powerUp: seq<nat>)
      requires |powerUp| == 32
      ensures Valid() && Abstract() == ResetRegisters(powerUp)
      ensures codes == Silent(channels) && this.channels == channels
    {
      this.channels := channels;
      known, value, codes := seq(32, r => r == 0), powerUp[0 := 0], Silent(channels);
    }

    /** The combinational value of register `rs` for channel `c`: lower channels override the registers. */
    method Forward(out: Channels, c: nat, rs: Reg) returns (valid: bool, data: nat)
      requires Valid() && c < |out|
      ensures var regs := WriteAll(Abstract(), Listed(out[..c]));
              valid == regs.known[rs] && data == regs.value[rs]
    {
      valid, data := known[rs], value[rs];
      ghost var regs := Abstract();
      for i := 0 to c
        invariant valid == WriteAll(regs, Listed(out[..i])).known[rs]
        invariant data == WriteAll(regs, Listed(out[..i])).value[rs]
      {
        WriteChannel(regs, out, i);
        if out[i].Some? && out[i].value.data.rdAddr == rs {
          valid, data := true, out[i].value.data.rdData;
        }
      }
    }

    /** The code that channel `c` takes at the end of a clock. */
    method Compare(out: Channels, c: nat) returns (code: nat)
      requires Valid() && c < |out|
      ensures code == RegisterCodes(Abstract(), out)[c]
    {
      code := 0;
      if out[c].Some? {
        var p := out[c].value.data;
        var valid, data := Forward(out, c, p.rs1Addr);
        if valid && data != p.rs1Data {
          code := Code(c, 31);
        }
        valid, data := Forward(out, c, p.rs2Addr);
        if valid && data != p.rs2Data {
          code := Code(c, 32);
        }
      }
    }

    /** The values that the registers take at the end of a clock without reset. */
    method Update(out: Channels) returns (nextKnown: seq<bool>, nextValue: seq<nat>, nextCodes: seq<nat>)
      requires Valid() && |out| == channels
      ensures |nextKnown| == |nextValue| == 32
      ensures Registers(nextKnown, nextValue) == WriteAll(Abstract(), Listed(out))
      ensures nextCodes == RegisterCodes(Abstract(), out)
    {
      nextKnown, nextValue, nextCodes := known, value, [];
      for c := 0 to channels
        invariant |nextKnown| == |nextValue| == 32
        invariant Registers(nextKnown, nextValue) == WriteAll(Abstract(), Listed(out[..c]))
        invariant |nextCodes| == c
        invariant forall i | 0 <= i < c :: nextCodes[i] == RegisterCodes(Abstract(), out)[i]
      {
        WriteChannel(Abstract(), out, c);
        var code := Compare(out, c);
        nextCodes := nextCodes + [code];
        if out[c].Some? {
          nextKnown := nextKnown[out[c].value.data.rdAddr := true];
          nextValue := nextValue[out[c].value.data.rdAddr := out[c].value.data.rdData];
        }
      }
      assert out[..channels] == out;
    }

    method Clock(reset: bool, out: Channels)
      requires Valid() && |out| == channels
      modifies this
      ensures Valid()
      ensures Abstract() == if reset then ResetRegisters(old(value)) else WriteAll(old(Abstract()), Listed(out))
      ensures codes == if reset then Silent(channels) else RegisterCodes(old(Abstract()), out)
    {
      if reset {
        known, value, codes := seq(32, r => r == 0), value[0 := 0], Silent(channels);
      } else {
        known, value, codes := Update(out);
      }
    }
  }

  // ----------------------------------------------------------------------------------
  // What the register checks mean for a list of packets
  // ----------------------------------------------------------------------------------

  /** Packet `j` is the last one before `k` that writes register `r`. */
  predicate LatestWrite(ps: seq<Retired>, k: nat, r: Reg, j: nat)
    requires k <= |ps|
  {
    j < k && ps[j].rdAddr == r && forall i | j < i < k :: ps[i].rdAddr != r
  }

  /**
   Packet `k` reads `data` from `r` as a machine that executes the packets one after the other
   would: the latest earlier write; zero from an unwritten x0; anything from another unwritten
   register.
   */
  ghost predicate ReadsLatest(ps: seq<Retired>, k: nat, r: Reg, data: nat)
    requires k <= |ps|
  {
    && (forall j: nat | LatestWrite(ps, k, r, j) :: data == ps[j].rdData)
    && (r == 0 && (forall j | 0 <= j < k :: ps[j].rdAddr != r) ==> data == 0)
  }

  ghost predicate Sequential(ps: seq<Retired>) {
    forall k | 0 <= k < |ps| ::
      ReadsLatest(ps, k, ps[k].rs1Addr, ps[k].rs1Data) && ReadsLatest(ps, k, ps[k].rs2Addr, ps[k].rs2Data)
  }

  lemma {:induction false} WrittenRegister(value: seq<nat>, ps: seq<Retired>, k: nat, r: Reg) returns (j: nat)
    requires |value| == 32 && k <= |ps|
    ensures var regs := WriteAll(ResetRegisters(value), ps[..k]);
            if j < k then LatestWrite(ps, k, r, j) && regs.known[r] && regs.value[r] == ps[j].rdData
            else (forall i | 0 <= i < k :: ps[i].rdAddr != r)
                 && regs.known[r] == (r == 0) && (r == 0 ==> regs.value[r] == 0)
  {
    j := k;
    if k > 0 {
      assert ps[..k][..k - 1] == ps[..k - 1];
      if ps[k - 1].rdAddr == r {
        j := k - 1;
      } else {
        var j' := WrittenRegister(value, ps, k - 1, r);
        j := if j' < k - 1 then j' else k;
      }
    }
  }

  lemma ReadOkIsReadsLatest(value: seq<nat>, ps: seq<Retired>, k: nat, r: Reg, data: nat)
    requires |value| == 32 && k <= |ps|
    ensures ReadOk(WriteAll(ResetRegisters(value), ps[..k]), r, data) <==> ReadsLatest(ps, k, r, data)
  {
    var j := WrittenRegister(value, ps, k, r);
    forall i: nat | LatestWrite(ps, k, r, i) ensures i == j {}
  }

  /** Comparing packet by packet from reset is checking for sequential execution. */
  lemma ReadsOkIffSequential(value: seq<nat>, ps: seq<Retired>)
    requires |value| == 32
    ensures AllReadsOk(ResetRegisters(value), ps) <==> Sequential(ps)
  {
    forall k | 0 <= k < |ps|
      ensures ReadsOk(WriteAll(ResetRegisters(value), ps[..k]), ps[k])
              <==> ReadsLatest(ps, k, ps[k].rs1Addr, ps[k].rs1Data) && ReadsLatest(ps, k, ps[k].rs2Addr, ps[k].rs2Data)
    {
      ReadOkIsReadsLatest(value, ps, k, ps[k].rs1Addr, ps[k].rs1Data);
      ReadOkIsReadsLatest(value, ps, k, ps[k].rs2Addr, ps[k].rs2Data);
    }
  }

  lemma {:induction false} WriteAllAppend(regs: Registers, a: seq<Retired>, b: seq<Retired>)
    requires regs.Sized()
    ensures WriteAll(regs, a + b) == WriteAll(WriteAll(regs, a), b)
  {
    if b == [] {
      assert a + b == a;
    } else {
      assert (a + b)[..|a + b| - 1] == a + b[..|b| - 1];
      WriteAllAppend(regs, a, b[..|b| - 1]);
    }
  }

  lemma AllReadsOkAppend(regs: Registers, a: seq<Retired>, b: seq<Retired>)
    requires regs.Sized()
    ensures AllReadsOk(regs, a + b) <==> AllReadsOk(regs, a) && AllReadsOk(WriteAll(regs, a), b)
  {
    forall k | 0 <= k < |a| ensures (a + b)[..k] == a[..k] && (a + b)[k] == a[k] {}
    forall k | 0 <= k < |b|
      ensures WriteAll(regs, (a + b)[..|a| + k]) == WriteAll(WriteAll(regs, a), b[..k]) && (a + b)[|a| + k] == b[k]
    {
      assert (a + b)[..|a| + k] == a + b[..k];
      WriteAllAppend(regs, a, b[..k]);
    }
    if AllReadsOk(regs, a + b) {
      forall k | 0 <= k < |b| ensures ReadsOk(WriteAll(WriteAll(regs, a), b[..k]), b[k]) {
        assert ReadsOk(WriteAll(regs, (a + b)[..|a| + k]), (a + b)[|a| + k]);
      }
      forall k | 0 <= k < |a| ensures ReadsOk(WriteAll(regs, a[..k]), a[k]) {
        assert ReadsOk(WriteAll(regs, (a + b)[..k]), (a + b)[k]);
      }
    }
  }

  // ----------------------------------------------------------------------------------
  // Codes and verdicts
  // ----------------------------------------------------------------------------------

  /**
   The 16-bit code of an rs2 mismatch does not come out as zero on any of the channels.  (The
   other kinds never do.)
   */
  predicate CodesVisible(channels: nat) {
    forall c | 0 <= c < channels :: Code(c, 32) != 0
  }

  /** The first channel whose code is cut to zero is number 7863. */
  lemma CodesVisibleIff(channels: nat)
    ensures CodesVisible(channels) <==> channels <= 7863
  {
    if channels <= 7863 {
      forall c | 0 <= c < channels ensures Code(c, 32) != 0 {
        var q := (100 * (1 + c) + 32) / 0x1_0000;
        assert Code(c, 32) == 0 ==> 25 * c + 33 == 16384 * q && 0 <= q < 12;
        assert 25 * c + 33 == 16384 * q && 0 <= q < 12 ==> q in {0, 1, 2, 3, 4, 5, 6, 7, 8, 9, 10, 11};
      }
    } else {
      assert Code(7863, 32) == 0;
    }
  }

  /** Up to 599 channels a code tells its channel and kind, and is none of the codes of the reorder buffer. */
  lemma CodesTellSource(channels: nat)
    ensures channels <= 599 <==> forall c, kind | 0 <= c < channels && 0 <= kind < 100 :: Code(c, kind) < 60000
    ensures channels <= 599 ==>
              forall c, kind | 0 <= c < channels && 0 <= kind < 100 ::
                Code(c, kind) / 100 == c + 1 && Code(c, kind) % 100 == kind
  {
    if channels > 599 {
      assert Code(599, 0) == 60000;
    } else {
      forall c, kind | 0 <= c < channels && 0 <= kind < 100
        ensures Code(c, kind) < 60000 && Code(c, kind) / 100 == c + 1 && Code(c, kind) % 100 == kind
      {
        assert Code(c, kind) == 100 * (1 + c) + kind;
      }
    }
  }

  /** Which operand a code blames: kind 32 a wrong read of rs2, kind 31 a wrong read of rs1 alone. */
  lemma RegisterCodeTells(regs: Registers, p: Retired, channel: nat)
    requires regs.Sized() && channel < 599
    ensures RegisterCode(regs, p, channel) == 100 * (channel + 1) + 32 <==> !ReadOk(regs, p.rs2Addr, p.rs2Data)
    ensures RegisterCode(regs, p, channel) == 100 * (channel + 1) + 31 <==>
              ReadOk(regs, p.rs2Addr, p.rs2Data) && !ReadOk(regs, p.rs1Addr, p.rs1Data)
  {
  }

  lemma RegisterCodeMeaning(regs: Registers, p: Retired, channel: nat)
    requires regs.Sized()
    requires Code(channel, 32) != 0
    ensures RegisterCode(regs, p, channel) == 0 <==> ReadsOk(regs, p)
  {
    assert (100 * (1 + channel) + 31) % 2 == 1;
    var q := (100 * (1 + channel) + 31) / 0x1_0000;
    assert 100 * (1 + channel) + 31 == q * 0x1_0000 + Code(channel, 31);
  }

  /** One channel of a clock. */
  lemma ChannelSilentIffReadsOk(regs: Registers, out: Channels, c: nat)
    requires regs.Sized() && c < |out|
    requires CodesVisible(|out|)
    ensures RegisterCodes(regs, out)[c] == 0 && AllReadsOk(regs, Listed(out[..c])) <==>
              AllReadsOk(regs, Listed(out[..c + 1])) && AllReadsOk(regs, Listed(out[..c]))
    ensures AllReadsOk(regs, Listed(out[..c + 1])) ==> AllReadsOk(regs, Listed(out[..c]))
  {
    ListedStep(out, c);
    var a := Listed(out[..c]);
    if out[c].Some? {
      var p := out[c].value.data;
      RegisterCodeMeaning(WriteAll(regs, a), p, c);
      AllReadsOkAppend(regs, a, [p]);
      AllReadsOkSingle(WriteAll(regs, a), p);
    }
  }

  /** No channel reports a register mismatch exactly when every packet passes its comparison. */
  lemma {:induction false} SilentIffReadsOk(regs: Registers, out: Channels, n: nat)
    requires regs.Sized() && n <= |out|
    requires CodesVisible(|out|)
    ensures (forall c | 0 <= c < n :: RegisterCodes(regs, out)[c] == 0) <==> AllReadsOk(regs, Listed(out[..n]))
  {
    if n > 0 {
      SilentIffReadsOk(regs, out, n - 1);
      ChannelSilentIffReadsOk(regs, out, n - 1);
    }
  }

  lemma AllReadsOkSingle(regs: Registers, p: Retired)
    requires regs.Sized()
    ensures AllReadsOk(regs, [p]) <==> ReadsOk(regs, p)
  {
    assert [p][..0] == [];
    assert WriteAll(regs, [p][..0]) == regs;
    assert AllReadsOk(regs, [p]) ==> ReadsOk(WriteAll(regs, [p][..0]), [p][0]);
  }
}
