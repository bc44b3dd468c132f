/**
 The shadow program counter of the monitor emitted by monitor/generate.py.

 As for the registers, several packets can be checked in one clock.  Here the emitted
 logic does not always agree with checking one packet at a time: the overlay for a channel
 takes the trap bit of that channel itself instead of the trap bit of the lower channel
 whose next pc it takes.  The lemmas say exactly when this makes a difference, and that
 the check for a missing interrupt entry after a trap can never report anything.
 */
module ShadowPc {
  import opened Options
  import opened Rob
  import opened Shadow

  datatype Pc = Pc(valid: bool, trap: bool, pc: nat)

  /** The state after a reset; the pc itself has no reset value. */
  function ResetPc(pc: nat): Pc {
    Pc(false, false, pc)
  }

  /** What the packet `p` leaves behind. */
  function Follow(p: Retired): Pc {
    Pc(!p.trap, p.trap, p.pcWrite)
  }

  function FollowAll(s: Pc, ps: seq<Retired>): Pc {
    if ps == [] then s else Follow(ps[|ps| - 1])
  }

  /** The two comparisons of a channel; the second one overrides the first. */
  function PcCode(seen: Pc, p: Retired, channel: nat): nat {
    if seen.valid && seen.trap && !p.intr then Code(channel, 33)
    else if seen.valid && seen.pc != p.pcRead && !p.intr then Code(channel, 30)
    else 0
  }

  /** The last occupied channel below `c`. */
  function LastBelow(out: Channels, c: nat): (r: Option<nat>)
    requires c <= |out|
    ensures r.Some? ==> r.value < c && out[r.value].Some?
  {
    if c == 0 then None
    else if out[c - 1].Some? then Some(c - 1)
    else LastBelow(out, c - 1)
  }

  /** The overlay that the emitted logic computes for an occupied channel `c`. */
  function Overlay(s: Pc, out: Channels, c: nat): Pc
    requires c < |out| && out[c].Some?
  {
    var own := out[c].value.data.trap;
    match LastBelow(out, c)
    case None => s
    case Some(i) => Pc(!own, own, out[i].value.data.pcWrite)
  }

  function PcCodes(s: Pc, out: Channels): seq<nat> {
    seq(|out|, c requires 0 <= c < |out| =>
      if out[c].Some? then PcCode(Overlay(s, out, c), out[c].value.data, c) else 0)
  }

  class ShadowCounter {
    const channels: nat
    var valid: bool
    var trap: bool
    var pc: nat
    var codes: seq<nat>

    ghost function Abstract(): Pc
      reads this
    {
      Pc(valid, trap, pc)
    }

    constructor (channels: nat, powerUp: nat)
      ensures Abstract() == ResetPc(powerUp) && codes == Silent(channels) && this.channels == channels
    {
      this.channels := channels;
      valid, trap, pc, codes := false, false, powerUp, Silent(channels);
    }

    /** The combinational overlay of channel `c`. */
    method Forward(out: Channels, c: nat) returns (seen: Pc)
      requires c < |out| && out[c].Some?
      ensures seen == Overlay(Abstract(), out, c)
    {
      seen := Pc(valid, trap, pc);
      ghost var own := out[c].value.data.trap;
      for i := 0 to c
        invariant seen == match LastBelow(out, i)
                          case None => Abstract()
                          case Some(k) => Pc(!own, own, out[k].value.data.pcWrite)
      {
        if out[i].Some? {
          seen := Pc(!out[c].value.data.trap, out[c].value.data.trap, out[i].value.data.pcWrite);
        }
      }
    }

    /** The code that channel `c` takes at the end of a clock. */
    method Compare(out: Channels, c: nat) returns (code: nat)
      requires c < |out|
      ensures code == PcCodes(Abstract(), out)[c]
    {
      code := 0;
      if out[c].Some? {
        var p := out[c].value.data;
        var seen := Forward(out, c);
        if seen.valid && seen.pc != p.pcRead && !p.intr {
          code := Code(c, 30);
        }
        if seen.valid && seen.trap && !p.intr {
          code := Code(c, 33);
        }
      }
    }

    method Update(out: Channels) returns (next: Pc, nextCodes: seq<nat>)
      requires |out| == channels
      ensures next == FollowAll(Abstract(), Listed(out))
      ensures nextCodes == PcCodes(Abstract(), out)
    {
      next, nextCodes := Pc(valid, trap, pc), [];
      for c := 0 to channels
        invariant next == FollowAll(Abstract(), Listed(out[..c]))
        invariant |nextCodes| == c
        invariant forall i | 0 <= i < c :: nextCodes[i] == PcCodes(Abstract(), out)[i]
      {
        ListedStep(out, c);
        var code := Compare(out, c);
        if out[c].Some? {
          var p := out[c].value.data;
          next := Pc(!p.trap, p.trap, p.pcWrite);
        }
        nextCodes := nextCodes + [code];
      }
      assert out[..channels] == out;
    }

    method Clock(reset: bool, out: Channels)
      requires |out| == channels
      modifies this
      ensures Abstract() == if reset then ResetPc(old(pc)) else FollowAll(old(Abstract()), Listed(out))
      ensures codes == if reset then Silent(channels) else PcCodes(old(Abstract()), out)
    {
      if reset {
        valid, trap, codes := false, false, Silent(channels);
      } else {
        var next;
        next, codes := Update(out);
        valid, trap, pc := next.valid, next.trap, next.pc;
      }
    }
  }

  // ----------------------------------------------------------------------------------
  // The check after a trap never reports
  // ----------------------------------------------------------------------------------

  /** Every state the hardware can be in: the two bits are never set together. */
  predicate Sane(s: Pc) {
    !(s.valid && s.trap)
  }

  /**
   Code 33 is dead: from a sane state every channel reports 0 or a pc mismatch, and the next
   state is sane again.
   */
  lemma MissingInterruptIsNeverReported(s: Pc, out: Channels, c: nat)
    requires Sane(s) && c < |out|
    ensures PcCodes(s, out)[c] == 0 || PcCodes(s, out)[c] == Code(c, 30)
    ensures Sane(FollowAll(s, Listed(out)))
  {
    var code := PcCodes(s, out)[c];
    assert code == if out[c].Some? then PcCode(Overlay(s, out, c), out[c].value.data, c) else 0;
  }

  /** Whatever retires first in the next clock after a trap is accepted, interrupt entry or not. */
  lemma AnythingGoesAfterTrap(s: Pc, ps: seq<Retired>, out: Channels, c: nat)
    requires ps != [] && ps[|ps| - 1].trap
    requires c < |out| && LastBelow(out, c) == None
    ensures PcCodes(FollowAll(s, ps), out)[c] == 0
  {
    var seen := FollowAll(s, ps);
    assert PcCodes(seen, out)[c] == if out[c].Some? then PcCode(Overlay(seen, out, c), out[c].value.data, c) else 0;
  }

  // ----------------------------------------------------------------------------------
  // Several channels against one packet at a time
  // ----------------------------------------------------------------------------------

  /** Two adjacent packets for which it does not matter whose trap bit is asked. */
  predicate SameVerdict(p: Retired, q: Retired) {
    p.trap == q.trap || q.intr || p.pcWrite == q.pcRead
  }

  /** The lower channel's packet decides whether channel `c` is checked, and it would decide the same for `c`. */
  predicate TrapBitsAgree(out: Channels, c: nat)
    requires c < |out| && out[c].Some?
  {
    match LastBelow(out, c)
    case None => true
    case Some(i) => SameVerdict(out[i].value.data, out[c].value.data)
  }

  /** The last packet below channel `c`. */
  lemma {:induction false} LastBelowListed(out: Channels, c: nat)
    requires c <= |out|
    ensures match LastBelow(out, c)
            case None => Listed(out[..c]) == []
            case Some(i) => Listed(out[..c]) != [] && Listed(out[..c])[|Listed(out[..c])| - 1] == out[i].value.data
  {
    if c > 0 {
      LastBelowListed(out, c - 1);
      ListedStep(out, c - 1);
    }
  }

  lemma PcCodesVisible(channel: nat)
    ensures Code(channel, 30) != 0 && Code(channel, 33) != 0
  {
    var x, y := 100 * (1 + channel) + 30, 100 * (1 + channel) + 33;
    assert x == 4 * (16384 * (x / 0x1_0000)) + Code(channel, 30) && x == 4 * (25 * (1 + channel) + 7) + 2;
    assert y == 4 * (16384 * (y / 0x1_0000)) + Code(channel, 33) && y == 4 * (25 * (1 + channel) + 8) + 1;
  }

  /**
   The emitted verdict of a channel is the verdict of checking one packet at a time exactly
   when the trap bits agree or the check could not fail anyway.
   */
  lemma VerdictsAgreeIff(s: Pc, out: Channels, c: nat)
    requires Sane(s) && c < |out| && out[c].Some?
    ensures (PcCodes(s, out)[c] == PcCode(FollowAll(s, Listed(out[..c])), out[c].value.data, c))
            <==> TrapBitsAgree(out, c)
  {
    LastBelowListed(out, c);
    PcCodesVisible(c);
    assert PcCodes(s, out)[c] == PcCode(Overlay(s, out, c), out[c].value.data, c);
  }

  /** Two packets in one clock, from reset. */
  function InOneClock(p: Retired, q: Retired): seq<nat> {
    PcCodes(ResetPc(0), [Some(Slot(0, p)), Some(Slot(1, q))])
  }

  /** The second of the same two packets, in the clock after the first. */
  function InTwoClocks(p: Retired, q: Retired): seq<nat> {
    PcCodes(FollowAll(ResetPc(0), [p]), [Some(Slot(1, q))])
  }

  lemma SecondChannel(p: Retired, q: Retired)
    ensures |InOneClock(p, q)| == 2
    ensures InOneClock(p, q)[1] == PcCode(Pc(!q.trap, q.trap, p.pcWrite), q, 1)
    ensures InTwoClocks(p, q) == [PcCode(Follow(p), q, 0)]
  {
    assert LastBelow([Some(Slot(0, p)), Some(Slot(1, q))], 1) == Some(0);
    assert LastBelow([Some(Slot(1, q))], 0) == None;
  }

  /** A packet that traps, then one whose pc does not fit: reported in one clock, accepted in two. */
  lemma FalseAlarm()
    ensures var p := Retired(0, 0, 0, 0, 0, 0, 0, 4, false, true);
            var q := Retired(0, 0, 0, 0, 0, 0, 100, 104, false, false);
            InOneClock(p, q)[1] == 230 && InTwoClocks(p, q) == [0]
  {
    var p := Retired(0, 0, 0, 0, 0, 0, 0, 4, false, true);
    var q := Retired(0, 0, 0, 0, 0, 0, 100, 104, false, false);
    SecondChannel(p, q);
  }

  /** A packet that does not trap, then a trapping one whose pc does not fit: accepted in one clock, reported in two. */
  lemma MissedError()
    ensures var p := Retired(0, 0, 0, 0, 0, 0, 0, 4, false, false);
            var q := Retired(0, 0, 0, 0, 0, 0, 100, 104, false, true);
            InOneClock(p, q)[1] == 0 && InTwoClocks(p, q) == [130]
  {
    var p := Retired(0, 0, 0, 0, 0, 0, 0, 4, false, false);
    var q := Retired(0, 0, 0, 0, 0, 0, 100, 104, false, true);
    SecondChannel(p, q);
  }

  // ----------------------------------------------------------------------------------
  // What the pc checks mean for a list of packets
  // ----------------------------------------------------------------------------------

  /** Each packet starts where its predecessor ended, unless the predecessor trapped or an interrupt is entered. */
  ghost predicate Linked(ps: seq<Retired>) {
    forall k | 1 <= k < |ps| :: ps[k - 1].trap || ps[k].intr || ps[k].pcRead == ps[k - 1].pcWrite
  }

  /** The links of a list that continues after state `s`. */
  ghost predicate LinkedFrom(s: Pc, ps: seq<Retired>) {
    && (ps != [] && s.valid && !ps[0].intr ==> ps[0].pcRead == s.pc)
    && Linked(ps)
  }

  lemma LinkedAppend(s: Pc, a: seq<Retired>, b: seq<Retired>)
    ensures LinkedFrom(s, a + b) <==> LinkedFrom(s, a) && LinkedFrom(FollowAll(s, a), b)
    ensures FollowAll(s, a + b) == FollowAll(FollowAll(s, a), b)
  {
    var ab := a + b;
    assert forall k | 0 <= k < |a| :: ab[k] == a[k];
    assert forall k | 0 <= k < |b| :: ab[|a| + k] == b[k];
    if LinkedFrom(s, ab) {
      forall k | 1 <= k < |b| ensures b[k - 1].trap || b[k].intr || b[k].pcRead == b[k - 1].pcWrite {
        var m := |a| + k;
        assert ab[m - 1].trap || ab[m].intr || ab[m].pcRead == ab[m - 1].pcWrite;
      }
      assert a != [] && b != [] ==> ab[|a| - 1].trap || ab[|a|].intr || ab[|a|].pcRead == ab[|a| - 1].pcWrite;
    }
    if LinkedFrom(s, a) && LinkedFrom(FollowAll(s, a), b) {
      forall k | 1 <= k < |ab| ensures ab[k - 1].trap || ab[k].intr || ab[k].pcRead == ab[k - 1].pcWrite {
        if k > |a| {
          var m := k - |a|;
          assert b[m - 1].trap || b[m].intr || b[m].pcRead == b[m - 1].pcWrite;
        }
      }
    }
  }

  /** The link that is checked between two packets of one clock: the trap bit that counts is that of the later one. */
  predicate LinkedInClock(p: Retired, q: Retired) {
    q.trap || q.intr || p.pcWrite == q.pcRead
  }

  /** The links that are checked when the packets `ps` leave in one clock after state `s`. */
  ghost predicate LinkedTogether(s: Pc, ps: seq<Retired>) {
    && (ps != [] && s.valid && !ps[0].intr ==> ps[0].pcRead == s.pc)
    && forall k | 1 <= k < |ps| :: LinkedInClock(ps[k - 1], ps[k])
  }

  /** One occupied channel, in any clock: what makes it silent. */
  lemma ChannelSilentIff(s: Pc, out: Channels, c: nat)
    requires Sane(s) && c < |out| && out[c].Some?
    ensures var q, below := out[c].value.data, Listed(out[..c]);
            PcCodes(s, out)[c] == 0 <==>
              if below == [] then !s.valid || q.intr || q.pcRead == s.pc
              else LinkedInClock(below[|below| - 1], q)
  {
    LastBelowListed(out, c);
    PcCodesVisible(c);
    assert PcCodes(s, out)[c] == PcCode(Overlay(s, out, c), out[c].value.data, c);
  }

  lemma LinkedTogetherNext(s: Pc, ps: seq<Retired>, q: Retired)
    ensures LinkedTogether(s, ps + [q]) <==>
              && LinkedTogether(s, ps)
              && if ps == [] then !s.valid || q.intr || q.pcRead == s.pc else LinkedInClock(ps[|ps| - 1], q)
  {
    var all := ps + [q];
    assert forall k | 0 <= k < |ps| :: all[k] == ps[k];
    if LinkedTogether(s, all) {
      forall k | 1 <= k < |ps| ensures LinkedInClock(ps[k - 1], ps[k]) {
        assert LinkedInClock(all[k - 1], all[k]);
      }
      if ps != [] { assert LinkedInClock(all[|ps| - 1], all[|ps|]); }
    }
  }

  /** What the silence of a clock means, for every number of channels and all trap bits. */
  lemma {:induction false} SilentIffLinked(s: Pc, out: Channels, n: nat)
    requires Sane(s) && n <= |out|
    ensures (forall c | 0 <= c < n :: PcCodes(s, out)[c] == 0) <==> LinkedTogether(s, Listed(out[..n]))
  {
    if n > 0 {
      var c := n - 1;
      SilentIffLinked(s, out, c);
      ListedStep(out, c);
      assert out[..c + 1] == out[..n];
      if out[c].Some? {
        ChannelSilentIff(s, out, c);
        LinkedTogetherNext(s, Listed(out[..c]), out[c].value.data);
      } else {
        assert PcCodes(s, out)[c] == 0;
      }
    }
  }

  /** Where that holds of the packets of a clock, the links checked are the links of the stream. */
  lemma LinkedTogetherIsLinked(s: Pc, ps: seq<Retired>)
    requires forall k | 1 <= k < |ps| :: SameVerdict(ps[k - 1], ps[k])
    ensures LinkedTogether(s, ps) <==> LinkedFrom(s, ps)
  {
    forall k | 1 <= k < |ps|
      ensures LinkedInClock(ps[k - 1], ps[k])
         <==> ps[k - 1].trap || ps[k].intr || ps[k].pcRead == ps[k - 1].pcWrite
    {
      assert SameVerdict(ps[k - 1], ps[k]);
    }
  }
}
