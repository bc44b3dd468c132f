/**
 Addresses and byte lanes of the beats of a burst in bus/rvfi_bus_axi4.sv, against
 section A3.4.1 of the AMBA AXI protocol specification (ARM IHI 0022E).

 The first part is the bit-level logic of the observer, the second the formulas of the
 standard, the third says for each burst type exactly which beats the two agree on.
 */
module AxiBurst {
  import opened Options
  import opened Powers
  import opened Words
  import opened Events
  import AxiProphecy
  import AxiWrite

  const INCR := 1
  const WRAP := 2

  // ----------------------------------------------------------------------------------
  // The observer's wires
  // ----------------------------------------------------------------------------------

  /** Log2 of the burst length; lengths that are no power of two up to 16 read as length 1. */
  function LenLog2(len: nat): nat {
    if len == 1 then 1 else if len == 3 then 2 else if len == 7 then 3 else if len == 15 then 4 else 0
  }

  /** The assertion on the length of wrapping bursts. */
  predicate WrapLengthOk(len: nat) {
    len == 0 || len == 1 || len == 3 || len == 7 || len == 15
  }

  /** The shift amount of the WRAP mask is a sum of two 3-bit values kept in 3 bits. */
  function WrapShift(size: nat, len: nat): nat {
    (size + LenLog2(len)) % 8
  }

  /** The address bits that change within a burst. */
  function BurstMask(width: nat, size: nat, len: nat, burst: nat): (w: Word)
    ensures |w| == width
  {
    if burst == INCR then Fill(width, true)
    else if burst == WRAP then Not(Shl(Fill(width, true), WrapShift(size, len)))
    else Fill(width, false)
  }

  function UnalignedAddr(mask: Word, addr: Word, offset: Word): Word
    requires |mask| == |addr| == |offset|
  {
    Or(And(mask, Add(addr, offset)), And(Not(mask), addr))
  }

  function SizeAligned(u: Word, size: nat): Word {
    And(u, Shl(Fill(|u|, true), size))
  }

  /** The bus carries 2^bus bytes. */
  function SizeMask(u: Word, size: nat, bus: nat): Word {
    Shl(Not(Shl(Fill(Pow2(bus), true), Pow2(size))), ToNat(Xor(SizeAligned(u, size), AlignDown(u, bus))))
  }

  function AlignmentMask(u: Word, size: nat, bus: nat, counter: nat): (w: Word)
    ensures |w| == Pow2(bus)
  {
    var sizeMask := SizeMask(u, size, bus);
    if counter != 0 then sizeMask
    else And(sizeMask, Shl(sizeMask, ToNat(Xor(u, SizeAligned(u, size)))))
  }

  /** What the observer knows about the beat it reports; addresses have `width` bits. */
  datatype Wires = Wires(width: nat, bus: nat, start: nat, size: nat, len: nat, burst: nat, counter: nat, offset: nat)

  function Address(v: Wires): (u: Word)
    ensures |u| == v.width
  {
    UnalignedAddr(
      BurstMask(v.width, v.size, v.len, v.burst), FromNat(v.start, v.width), FromNat(v.offset, v.width))
  }

  /** `rvfi_bus_addr`. */
  function ReportedAddress(v: Wires): nat {
    ToNat(AlignDown(Address(v), v.bus))
  }

  /** The lanes in which strobes are tolerated. */
  function ReportedLanes(v: Wires): (w: Word)
    ensures |w| == Pow2(v.bus)
  {
    AlignmentMask(Address(v), v.size, v.bus, v.counter)
  }

  /** The assertion `!(out_wstrb & ~alignment_mask)`. */
  predicate StrobesOk(v: Wires, strobes: Word)
    requires |strobes| == Pow2(v.bus)
  {
    And(strobes, Not(ReportedLanes(v))) == Fill(Pow2(v.bus), false)
  }

  // ----------------------------------------------------------------------------------
  // Section A3.4.1
  // ----------------------------------------------------------------------------------

  function RoundDown(x: nat, to: nat): nat
    requires to > 0
  {
    x - x % to
  }

  /** The form the standard gives it: INT(x / to) * to. */
  lemma RoundDownIsQuotient(x: nat, to: nat)
    requires to > 0
    ensures RoundDown(x, to) == x / to * to
  {
  }

  /** Address of transfer `i` (counted from 0) of a burst. */
  function StandardAddress(start: nat, size: nat, len: nat, burst: nat, i: nat): int {
    var bytes := Pow2(size);
    if i == 0 then start
    else if burst == INCR then RoundDown(start, bytes) + i * bytes
    else if burst == WRAP then
      WrapAddress(start, bytes, i * bytes, bytes * (len + 1))
    else start
  }

  function WrapAddress(start: nat, bytes: nat, step: nat, total: nat): int
    requires bytes > 0 && total > 0
  {
    if RoundDown(start, bytes) + step < RoundDown(start, total) + total
    then RoundDown(start, bytes) + step
    else start + step - total
  }

  function LowerLane(a: nat, bus: nat): nat {
    a - RoundDown(a, Pow2(bus))
  }

  /** The first transfer of a burst and all of a FIXED burst may start inside a transfer-sized block. */
  function UpperLane(start: nat, a: nat, size: nat, bus: nat, first: bool): int {
    if first then RoundDown(start, Pow2(size)) + (Pow2(size) - 1) - RoundDown(start, Pow2(bus))
    else LowerLane(a, bus) + Pow2(size) - 1
  }

  predicate InLanes(v: Wires, i: nat, k: nat)
    requires StandardAddress(v.start, v.size, v.len, v.burst, i) >= 0
  {
    var a := StandardAddress(v.start, v.size, v.len, v.burst, i);
    var first := i == 0 || (v.burst != INCR && v.burst != WRAP);
    LowerLane(a, v.bus) <= k <= UpperLane(v.start, a, v.size, v.bus, first)
  }

  /** The observer's address and lanes for transfer `i` are those of the standard. */
  ghost predicate AsStandard(v: Wires, i: nat) {
    var a := StandardAddress(v.start, v.size, v.len, v.burst, i);
    && a >= 0
    && ReportedAddress(v) == RoundDown(a, Pow2(v.bus)) % Pow2(v.width)
    && forall k: nat | k < Pow2(v.bus) :: ReportedLanes(v)[k] <==> InLanes(v, i, k)
  }

  /** A transfer of `2^size` bytes fits the bus, the bus fits the address space, and `i` transfers went before. */
  predicate IsTransfer(v: Wires, i: nat) {
    && v.size <= v.bus <= v.width
    && v.size < 8
    && v.start < Pow2(v.width)
    && v.counter == i <= v.len
    && v.offset == i * Pow2(v.size) % Pow2(v.width)
  }

  // ----------------------------------------------------------------------------------
  // From bits to numbers
  // ----------------------------------------------------------------------------------

  /** Removing set bits by exclusive or is subtraction. */
  lemma {:induction false} LowBitsOfXor(a: Word, b: Word, n: nat)
    requires |a| == |b| && n <= |a|
    requires forall k | 0 <= k < n :: b[k] ==> a[k]
    ensures LowBits(Xor(a, b), n) == LowBits(a, n) - LowBits(b, n)
  {
    if n > 0 { LowBitsOfXor(a, b, n - 1); }
  }

  lemma XorIsMinus(a: Word, b: Word)
    requires |a| == |b|
    requires forall k | 0 <= k < |a| :: b[k] ==> a[k]
    ensures ToNat(Xor(a, b)) == ToNat(a) - ToNat(b)
  {
    LowBitsOfXor(a, b, |a|);
  }

  lemma SizeAlignedValue(u: Word, size: nat)
    requires size <= |u|
    ensures SizeAligned(u, size) == Fill(size, false) + u[size..]
    ensures ToNat(SizeAligned(u, size)) == ToNat(u) - ToNat(u) % Pow2(size)
  {
    HighMask(u, size);
  }

  lemma LaneOffsets(u: Word, size: nat, bus: nat)
    requires size <= bus <= |u|
    ensures ToNat(Xor(SizeAligned(u, size), AlignDown(u, bus))) == ToNat(u) % Pow2(bus) - ToNat(u) % Pow2(size)
    ensures ToNat(Xor(u, SizeAligned(u, size))) == ToNat(u) % Pow2(size)
  {
    SizeAlignedValue(u, size);
    AlignDownValue(u, bus);
    XorIsMinus(SizeAligned(u, size), AlignDown(u, bus));
    XorIsMinus(u, SizeAligned(u, size));
  }

  /** The lane mask is one run of lanes. */
  lemma Lanes(u: Word, size: nat, bus: nat, counter: nat, k: nat)
    requires size <= bus <= |u| && k < Pow2(bus)
    ensures var x, block := ToNat(u) % Pow2(bus), ToNat(u) % Pow2(bus) - ToNat(u) % Pow2(size);
            AlignmentMask(u, size, bus, counter)[k] <==>
            (if counter != 0 then block else x) <= k < block + Pow2(size)
  {
    LaneOffsets(u, size, bus);
  }

  /** Start plus offset in the address adder; `offset` holds `step` as far as its width goes. */
  lemma AddValue(start: nat, step: nat, offset: nat, width: nat)
    requires start < Pow2(width) && offset == step % Pow2(width)
    ensures ToNat(Add(FromNat(start, width), FromNat(offset, width))) == (start + step) % Pow2(width)
  {
    SmallValue(start, width);
    SmallValue(offset, width);
    FromNatToNat(start + offset, width);
    ModAdd(step, start, Pow2(width));
    assert step + start == start + step && offset + start == start + offset;
  }

  lemma SmallValue(n: nat, width: nat)
    requires n < Pow2(width)
    ensures ToNat(FromNat(n, width)) == n
  {
    FromNatToNat(n, width);
    DivModUnique(n, 0, n, Pow2(width));
  }

  /** The address before alignment, as a number, for the three kinds of bursts. */
  lemma AddressOfIncr(v: Wires, i: nat)
    requires IsTransfer(v, i) && v.burst == INCR
    ensures ToNat(Address(v)) == (v.start + i * Pow2(v.size)) % Pow2(v.width)
  {
    var start, offset := FromNat(v.start, v.width), FromNat(v.offset, v.width);
    AddValue(v.start, i * Pow2(v.size), v.offset, v.width);
    assert Address(v) == Add(start, offset);
  }

  lemma AddressOfFixed(v: Wires, i: nat)
    requires IsTransfer(v, i) && v.burst != INCR && v.burst != WRAP
    ensures ToNat(Address(v)) == v.start
  {
    SmallValue(v.start, v.width);
    assert Address(v) == FromNat(v.start, v.width);
  }

  lemma AddressOfWrap(v: Wires, i: nat, s: nat)
    requires IsTransfer(v, i) && v.burst == WRAP && s == WrapShift(v.size, v.len) <= v.width
    ensures ToNat(Address(v)) == WrapValue(v, i, Pow2(s))
  {
    var mask := BurstMask(v.width, v.size, v.len, v.burst);
    assert mask == Not(Shl(Fill(|mask|, true), s));
    AddressInWindow(v, i, s, mask);
  }

  lemma AddressInWindow(v: Wires, i: nat, s: nat, mask: Word)
    requires IsTransfer(v, i) && s <= v.width == |mask|
    requires mask == Not(Shl(Fill(|mask|, true), s))
    ensures ToNat(UnalignedAddr(mask, FromNat(v.start, v.width), FromNat(v.offset, v.width)))
         == WrapValue(v, i, Pow2(s))
  {
    var sum := (v.start + i * Pow2(v.size)) % Pow2(v.width);
    SmallValue(v.start, v.width);
    SumValue(v, i, sum);
    SelectedAddress(mask, FromNat(v.start, v.width), FromNat(v.offset, v.width), s, v.start, sum);
  }

  lemma SumValue(v: Wires, i: nat, sum: nat)
    requires IsTransfer(v, i) && sum == (v.start + i * Pow2(v.size)) % Pow2(v.width)
    ensures ToNat(Add(FromNat(v.start, v.width), FromNat(v.offset, v.width))) == sum
  {
    AddValue(v.start, i * Pow2(v.size), v.offset, v.width);
  }

  lemma SelectedAddress(mask: Word, addr: Word, offset: Word, s: nat, x: nat, sum: nat)
    requires |mask| == |addr| == |offset| && s <= |mask|
    requires mask == Not(Shl(Fill(|mask|, true), s))
    requires ToNat(addr) == x && ToNat(Add(addr, offset)) == sum
    ensures ToNat(UnalignedAddr(mask, addr, offset)) == InWindow(x, sum, Pow2(s))
  {
    SelectLow(Add(addr, offset), addr, mask, s);
  }

  /** The low bits of `sum` in the window of `window` bytes around `x`. */
  function InWindow(x: nat, sum: nat, window: nat): int
    requires window > 0
  {
    sum % window + x - x % window
  }

  /** The address moves inside its aligned window of `window` bytes. */
  function WrapValue(v: Wires, i: nat, window: nat): int
    requires window > 0
  {
    InWindow(v.start, (v.start + i * Pow2(v.size)) % Pow2(v.width), window)
  }

  // ----------------------------------------------------------------------------------
  // Arithmetic
  // ----------------------------------------------------------------------------------

  /** Rounding down commutes with reduction modulo a larger power of two. */
  lemma RoundDownMod(x: nat, a: nat, b: nat)
    requires a <= b
    ensures RoundDown(x, Pow2(a)) % Pow2(b) == x % Pow2(b) - x % Pow2(b) % Pow2(a)
  {
    ModPow2(x, a, b);
    SubtractFromRemainder(x, x % Pow2(a), Pow2(b));
  }

  /** Dropping the offset inside a small block leaves the position of the block in a larger one. */
  lemma BlockPosition(x: nat, a: nat, b: nat)
    requires a <= b
    ensures var y := RoundDown(x, Pow2(a));
            && y % Pow2(b) == x % Pow2(b) - x % Pow2(a)
            && RoundDown(y, Pow2(b)) == RoundDown(x, Pow2(b))
  {
    ModPow2(x, a, b);
    SubtractFromRemainder(x, x % Pow2(a), Pow2(b));
  }

  lemma RoundDownAdd(start: nat, step: nat, m: nat)
    requires m > 0 && step % m == 0
    ensures RoundDown(start, m) + step == RoundDown(start + step, m)
  {
    ModAdd(step, start, m);
  }

  /** The address and the position on the bus of the block around a byte, inside the address space. */
  lemma BlockPlace(y: nat, size: nat, bus: nat, width: nat)
    requires size <= bus <= width
    ensures var x, a := y % Pow2(width), RoundDown(y, Pow2(size));
            && a % Pow2(bus) == x % Pow2(bus) - x % Pow2(size)
            && RoundDown(a, Pow2(bus)) % Pow2(width) == x - x % Pow2(bus)
  {
    ModPow2(y, size, width);
    ModPow2(y, bus, width);
    BlockPosition(y, size, bus);
    RoundDownMod(y, bus, width);
  }

  /** An address moving inside an aligned window, with the wrap made explicit. */
  lemma WindowStep(start: nat, step: nat, window: nat)
    requires window > 0 && step < window
    ensures var low := start % window;
            (start + step) % window == if low + step < window then low + step else low + step - window
  {
    var q, low := start / window, start % window;
    assert start == q * window + low;
    if low + step < window {
      DivModUnique(start + step, q, low + step, window);
    } else {
      assert (q + 1) * window == q * window + window;
      DivModUnique(start + step, q + 1, low + step - window, window);
    }
  }

  /** The two cases of the standard are one reduction modulo the window. */
  lemma WrapAddressValue(start: nat, bytes: nat, step: nat, window: nat)
    requires bytes > 0 && step < window && start % bytes == 0
    ensures WrapAddress(start, bytes, step, window) == start - start % window + (start + step) % window
    ensures WrapAddress(start, bytes, step, window) == start <==> step == 0
  {
    WindowStep(start, step, window);
  }

  /** The aligned window around an address lies in the address space. */
  lemma WindowFits(x: nat, a: nat, b: nat)
    requires a <= b && x < Pow2(b)
    ensures x - x % Pow2(a) + Pow2(a) <= Pow2(b)
  {
    Pow2Add(b - a, a);
    BlockFits(x, Pow2(a), Pow2(b - a));
  }

  /** An aligned address moving in aligned steps inside an aligned window stays aligned. */
  lemma WindowAligned(start: nat, step: nat, a: nat, b: nat)
    requires a <= b && start % Pow2(a) == 0 && step % Pow2(a) == 0
    ensures (start - start % Pow2(b) + (start + step) % Pow2(b)) % Pow2(a) == 0
  {
    ModPow2(start, a, b);
    ModPow2(start + step, a, b);
    NoRemainderAdds(start, step, Pow2(a));
    NoRemainderAdds(start, start % Pow2(b), Pow2(a));
    NoRemainderAdds(start - start % Pow2(b), (start + step) % Pow2(b), Pow2(a));
  }

  // ----------------------------------------------------------------------------------
  // Burst types
  // ----------------------------------------------------------------------------------

  /** The observer reports the bus word at `word` and the lanes from `low` up to `high`. */
  ghost predicate Shows(v: Wires, word: int, low: int, high: int) {
    && ReportedAddress(v) == word
    && forall k: nat | k < Pow2(v.bus) :: ReportedLanes(v)[k] <==> low <= k < high
  }

  /** The address and lanes reported for the address `u` before alignment. */
  lemma ReportedFor(v: Wires, i: nat, u: nat, x: nat, block: int)
    requires IsTransfer(v, i) && ToNat(Address(v)) == u
    requires x == u % Pow2(v.bus) && block == x - u % Pow2(v.size)
    ensures Shows(v, u - x, if i != 0 then block else x, block + Pow2(v.size))
  {
    AlignDownValue(Address(v), v.bus);
    forall k: nat | k < Pow2(v.bus)
      ensures ReportedLanes(v)[k] <==> (if i != 0 then block else x) <= k < block + Pow2(v.size)
    {
      Lanes(Address(v), v.size, v.bus, v.counter, k);
    }
  }

  /** What the standard asks of a transfer at the start address itself. */
  lemma LanesOfStart(v: Wires, i: nat, x: nat, block: int, k: nat)
    requires i == 0 || (v.burst != INCR && v.burst != WRAP)
    requires x == v.start % Pow2(v.bus) && block == x - v.start % Pow2(v.size)
    ensures StandardAddress(v.start, v.size, v.len, v.burst, i) == v.start
    ensures InLanes(v, i, k) <==> x <= k < block + Pow2(v.size)
  {
  }

  lemma BusWordFits(a: nat, bus: nat, width: nat)
    requires a < Pow2(width)
    ensures RoundDown(a, Pow2(bus)) % Pow2(width) == RoundDown(a, Pow2(bus))
  {
    var r := RoundDown(a, Pow2(bus));
    DivModUnique(r, 0, r, Pow2(width));
  }

  /** A transfer at the start address is right when it is shown with the lanes from the start on. */
  lemma StartBeat(v: Wires, i: nat, x: nat, block: int)
    requires IsTransfer(v, i) && (i == 0 || (v.burst != INCR && v.burst != WRAP))
    requires x == v.start % Pow2(v.bus) && block == x - v.start % Pow2(v.size)
    requires Shows(v, v.start - x, x, block + Pow2(v.size))
    ensures AsStandard(v, i)
  {
    BusWordFits(v.start, v.bus, v.width);
    LanesOfStart(v, i, x, block, 0);
    forall k: nat | k < Pow2(v.bus) ensures ReportedLanes(v)[k] <==> InLanes(v, i, k) {
      LanesOfStart(v, i, x, block, k);
    }
  }

  /** The first transfer is right whatever the burst type and alignment. */
  lemma FirstBeat(v: Wires)
    requires IsTransfer(v, 0)
    requires v.burst == WRAP ==> WrapShift(v.size, v.len) <= v.width
    ensures AsStandard(v, 0)
  {
    AddressOfFirst(v);
    var x := v.start % Pow2(v.bus);
    ReportedFor(v, 0, v.start, x, x - v.start % Pow2(v.size));
    StartBeat(v, 0, x, x - v.start % Pow2(v.size));
  }

  lemma AddressOfFirst(v: Wires)
    requires IsTransfer(v, 0)
    requires v.burst == WRAP ==> WrapShift(v.size, v.len) <= v.width
    ensures ToNat(Address(v)) == v.start
  {
    assert v.start + 0 * Pow2(v.size) == v.start;
    DivModUnique(v.start, 0, v.start, Pow2(v.width));
    if v.burst == INCR {
      AddressOfIncr(v, 0);
    } else if v.burst == WRAP {
      AddressOfWrap(v, 0, WrapShift(v.size, v.len));
    } else {
      AddressOfFixed(v, 0);
    }
  }

  lemma LanesOfLater(v: Wires, i: nat, a: nat, k: nat)
    requires i > 0 && (v.burst == INCR || v.burst == WRAP)
    requires a == StandardAddress(v.start, v.size, v.len, v.burst, i)
    ensures InLanes(v, i, k) <==> a % Pow2(v.bus) <= k < a % Pow2(v.bus) + Pow2(v.size)
  {
  }

  /** A transfer after the first of a moving burst, given where its address is. */
  lemma LaterBeat(v: Wires, i: nat, a: nat, word: int, low: int)
    requires IsTransfer(v, i) && i > 0 && (v.burst == INCR || v.burst == WRAP)
    requires a == StandardAddress(v.start, v.size, v.len, v.burst, i)
    requires word == RoundDown(a, Pow2(v.bus)) % Pow2(v.width) && low == a % Pow2(v.bus)
    requires Shows(v, word, low, low + Pow2(v.size))
    ensures AsStandard(v, i)
  {
    forall k: nat | k < Pow2(v.bus) ensures ReportedLanes(v)[k] <==> InLanes(v, i, k) {
      LanesOfLater(v, i, a, k);
    }
  }

  /** Incrementing bursts are right for every alignment, length and transfer. */
  lemma IncrBeats(v: Wires, i: nat)
    requires IsTransfer(v, i) && v.burst == INCR
    ensures AsStandard(v, i)
  {
    if i == 0 {
      FirstBeat(v);
    } else {
      LaterIncrBeat(v, i, v.start + i * Pow2(v.size));
    }
  }

  lemma LaterIncrBeat(v: Wires, i: nat, y: nat)
    requires IsTransfer(v, i) && v.burst == INCR && i > 0 && y == v.start + i * Pow2(v.size)
    ensures AsStandard(v, i)
  {
    var u := y % Pow2(v.width);
    var x, e := u % Pow2(v.bus), u % Pow2(v.size);
    AddressOfIncr(v, i);
    ReportedFor(v, i, u, x, x - e);
    StandardOfIncr(v, i, y);
    BlockPlace(y, v.size, v.bus, v.width);
    LaterBeat(v, i, RoundDown(y, Pow2(v.size)), u - x, x - e);
  }

  lemma StandardOfIncr(v: Wires, i: nat, y: nat)
    requires v.burst == INCR && i > 0 && y == v.start + i * Pow2(v.size)
    ensures StandardAddress(v.start, v.size, v.len, v.burst, i) == RoundDown(y, Pow2(v.size))
  {
    MultipleHasNoRemainder(i, Pow2(v.size));
    RoundDownAdd(v.start, i * Pow2(v.size), Pow2(v.size));
  }

  /**
   After its first transfer a burst that keeps its address is given all lanes of the
   transfer-sized block, which is right exactly when the address is aligned to that block.
   */
  lemma FixedBeats(v: Wires, i: nat)
    requires IsTransfer(v, i) && v.burst != INCR && v.burst != WRAP
    ensures AsStandard(v, i) <==> i == 0 || v.start % Pow2(v.size) == 0
  {
    if i == 0 {
      FirstBeat(v);
    } else {
      var x, e := v.start % Pow2(v.bus), v.start % Pow2(v.size);
      AddressOfFixed(v, i);
      ModPow2(v.start, v.size, v.bus);
      ReportedFor(v, i, v.start, x, x - e);
      if e == 0 {
        StartBeat(v, i, x, x - e);
      } else {
        var low: nat := x - e;
        assert ReportedLanes(v)[low];
        LanesOfStart(v, i, x, x - e, low);
        LaneDiffers(v, i, low);
      }
    }
  }

  lemma LaneDiffers(v: Wires, i: nat, k: nat)
    requires StandardAddress(v.start, v.size, v.len, v.burst, i) >= 0
    requires k < Pow2(v.bus) && ReportedLanes(v)[k] != InLanes(v, i, k)
    ensures !AsStandard(v, i)
  {
  }

  /** A wrapping burst: a legal length, a start aligned to the transfer size, a window inside the address space. */
  predicate IsWrap(v: Wires) {
    && v.burst == WRAP && WrapLengthOk(v.len)
    && v.start % Pow2(v.size) == 0
    && v.size + LenLog2(v.len) <= v.width
  }

  /** The lengths that are let through are the powers of two up to 16, and only for them a length is known. */
  lemma WrapLengths(len: nat)
    ensures WrapLengthOk(len) <==> exists k: nat :: k <= 4 && len + 1 == Pow2(k)
    ensures WrapLengthOk(len) ==> len + 1 == Pow2(LenLog2(len))
    ensures !WrapLengthOk(len) ==> LenLog2(len) == 0
  {
    assert Pow2(0) == 1 && Pow2(1) == 2 && Pow2(2) == 4 && Pow2(3) == 8 && Pow2(4) == 16;
    if k: nat :| k <= 4 && len + 1 == Pow2(k) {
      assert k in {0, 1, 2, 3, 4};
    }
  }

  /** The window of a wrapping burst is a power of two. */
  lemma WindowSize(v: Wires)
    requires IsWrap(v)
    ensures Pow2(v.size) * (v.len + 1) == Pow2(v.size + LenLog2(v.len))
  {
    Pow2Add(v.size, LenLog2(v.len));
    WrapLengths(v.len);
  }

  lemma StepInWindow(i: nat, n: nat, bytes: nat)
    requires i < n && bytes > 0
    ensures i * bytes < n * bytes
  {
    AtLeastOnce(n - i, bytes);
    assert n * bytes == i * bytes + (n - i) * bytes;
  }

  /** The address the standard gives a transfer of a wrapping burst. */
  lemma WrapStandard(v: Wires, i: nat)
    requires IsTransfer(v, i) && IsWrap(v)
    ensures var window, a := Pow2(v.size + LenLog2(v.len)), StandardAddress(v.start, v.size, v.len, v.burst, i);
            && a == v.start - v.start % window + (v.start + i * Pow2(v.size)) % window
            && 0 <= a < Pow2(v.width)
            && (a == v.start <==> i == 0)
            && a % Pow2(v.size) == 0
  {
    WindowSize(v);
    WrapStandardAt(v, i, v.size + LenLog2(v.len));
  }

  lemma WrapStandardAt(v: Wires, i: nat, s: nat)
    requires IsTransfer(v, i) && v.burst == WRAP && v.start % Pow2(v.size) == 0
    requires v.size <= s <= v.width && Pow2(v.size) * (v.len + 1) == Pow2(s)
    ensures var a := StandardAddress(v.start, v.size, v.len, v.burst, i);
            && a == v.start - v.start % Pow2(s) + (v.start + i * Pow2(v.size)) % Pow2(s)
            && 0 <= a < Pow2(v.width)
            && (a == v.start <==> i == 0)
            && a % Pow2(v.size) == 0
  {
    var bytes, step := Pow2(v.size), i * Pow2(v.size);
    StepMoves(i, v.len + 1, bytes);
    assert bytes * (v.len + 1) == (v.len + 1) * bytes;
    var a := WrapAddress(v.start, bytes, step, Pow2(s));
    WrapStandardStep(v.start, step, v.size, s, v.width, a);
    assert StandardAddress(v.start, v.size, v.len, v.burst, i) == a;
  }

  lemma StepMoves(i: nat, n: nat, bytes: nat)
    requires i < n && bytes > 0
    ensures i * bytes < n * bytes && i * bytes % bytes == 0
    ensures i * bytes == 0 <==> i == 0
  {
    StepInWindow(i, n, bytes);
    if i > 0 { AtLeastOnce(i, bytes); }
    MultipleHasNoRemainder(i, bytes);
  }

  lemma WrapStandardStep(start: nat, step: nat, size: nat, s: nat, width: nat, a: int)
    requires size <= s <= width && start < Pow2(width) && start % Pow2(size) == 0
    requires step < Pow2(s) && step % Pow2(size) == 0
    requires a == WrapAddress(start, Pow2(size), step, Pow2(s))
    ensures && a == start - start % Pow2(s) + (start + step) % Pow2(s)
            && 0 <= a < Pow2(width)
            && (a == start <==> step == 0)
            && a % Pow2(size) == 0
  {
    WrapAddressValue(start, Pow2(size), step, Pow2(s));
    WindowFits(start, s, width);
    WindowAligned(start, step, size, s);
  }

  /** When the shift amount does not overflow, the address moves as the standard says. */
  lemma WrapAddressRight(v: Wires, i: nat)
    requires IsTransfer(v, i) && IsWrap(v) && v.size + LenLog2(v.len) <= 7
    ensures ToNat(Address(v)) == StandardAddress(v.start, v.size, v.len, v.burst, i)
  {
    var s := v.size + LenLog2(v.len);
    AddressOfWrap(v, i, s);
    WrapStandard(v, i);
    WrapValueIs(v, i, s);
  }

  lemma WrapValueIs(v: Wires, i: nat, s: nat)
    requires s <= v.width
    ensures WrapValue(v, i, Pow2(s)) == v.start - v.start % Pow2(s) + (v.start + i * Pow2(v.size)) % Pow2(s)
  {
    ModPow2(v.start + i * Pow2(v.size), s, v.width);
  }

  lemma WrapBeatsRight(v: Wires, i: nat)
    requires IsTransfer(v, i) && IsWrap(v) && v.size + LenLog2(v.len) <= 7
    ensures AsStandard(v, i)
  {
    if i == 0 {
      FirstBeat(v);
    } else {
      var a := StandardAddress(v.start, v.size, v.len, v.burst, i);
      WrapAddressRight(v, i);
      WrapStandard(v, i);
      var x := a % Pow2(v.bus);
      ReportedFor(v, i, a, x, x);
      BusWordFits(a, v.bus, v.width);
      LaterBeat(v, i, a, a - x, x);
    }
  }

  /** When the shift amount overflows, the burst is reported as if its address never moved. */
  lemma OverflowKeepsAddress(v: Wires, i: nat)
    requires IsTransfer(v, i) && IsWrap(v) && v.size + LenLog2(v.len) > 7
    ensures ToNat(Address(v)) == v.start
  {
    var e := WrapShift(v.size, v.len);
    assert e <= v.size;
    AddressOfWrap(v, i, e);
    WrapValueIs(v, i, e);
    ModPow2(v.start + i * Pow2(v.size), e, v.size);
    ModPow2(v.start, e, v.size);
    ModDropMultiple(v.start, i, Pow2(v.size));
  }

  /**
   Wrapping bursts: a transfer after the first is right exactly when the sum of the two
   logarithms fits the 3 bits it is computed in.
   */
  lemma WrapBeats(v: Wires, i: nat)
    requires IsTransfer(v, i) && IsWrap(v)
    ensures AsStandard(v, i) <==> i == 0 || v.size + LenLog2(v.len) <= 7
  {
    if v.size + LenLog2(v.len) <= 7 {
      WrapBeatsRight(v, i);
    } else if i == 0 {
      FirstBeat(v);
    } else {
      var x := v.start % Pow2(v.bus);
      OverflowKeepsAddress(v, i);
      ReportedFor(v, i, v.start, x, x);
      WrapStandard(v, i);
      OtherPlace(v, i, StandardAddress(v.start, v.size, v.len, v.burst, i), x);
    }
  }

  /** An aligned address other than the reported one differs in the bus word or in the lanes. */
  lemma OtherPlace(v: Wires, i: nat, a: nat, y: nat)
    requires IsTransfer(v, i) && i > 0 && v.burst == WRAP
    requires a == StandardAddress(v.start, v.size, v.len, v.burst, i) < Pow2(v.width) && a != v.start
    requires y == v.start % Pow2(v.bus) && Shows(v, v.start - y, y, y + Pow2(v.size))
    ensures !AsStandard(v, i)
  {
    var x := a % Pow2(v.bus);
    if a - x == v.start - y {
      var k: nat := if x < y then x else y;
      LanesOfLater(v, i, a, k);
      assert ReportedLanes(v)[k] <==> y <= k < y + Pow2(v.size);
      LaneDiffers(v, i, k);
    } else {
      BusWordFits(a, v.bus, v.width);
    }
  }

  // ----------------------------------------------------------------------------------
  // All beats
  // ----------------------------------------------------------------------------------

  /** The cases in which transfer `i` is placed as the standard says. */
  predicate PlacedRight(v: Wires, i: nat) {
    || i == 0
    || v.burst == INCR
    || (v.burst == WRAP && v.size + LenLog2(v.len) <= 7)
    || (v.burst != INCR && v.burst != WRAP && v.start % Pow2(v.size) == 0)
  }

  lemma BeatsAsStandard(v: Wires, i: nat)
    requires IsTransfer(v, i) && (v.burst == WRAP ==> IsWrap(v))
    ensures AsStandard(v, i) <==> PlacedRight(v, i)
  {
    if v.burst == INCR {
      IncrBeats(v, i);
    } else if v.burst == WRAP {
      WrapBeats(v, i);
    } else {
      FixedBeats(v, i);
    }
  }

  /** The strobe assertion holds exactly when every strobe lies in the lanes of the standard. */
  lemma StrobesMeaning(v: Wires, i: nat, strobes: Word)
    requires IsTransfer(v, i) && (v.burst == WRAP ==> IsWrap(v)) && PlacedRight(v, i)
    requires |strobes| == Pow2(v.bus)
    ensures StandardAddress(v.start, v.size, v.len, v.burst, i) >= 0
    ensures StrobesOk(v, strobes) <==> forall k: nat | k < Pow2(v.bus) && strobes[k] :: InLanes(v, i, k)
  {
    BeatsAsStandard(v, i);
    var outside := And(strobes, Not(ReportedLanes(v)));
    if StrobesOk(v, strobes) {
      forall k: nat | k < Pow2(v.bus) && strobes[k] ensures InLanes(v, i, k) {
        assert !outside[k];
      }
    }
    if forall k: nat | k < Pow2(v.bus) && strobes[k] :: InLanes(v, i, k) {
      assert outside == Fill(Pow2(v.bus), false);
    }
  }

  // ----------------------------------------------------------------------------------
  // A wrapping burst goes once around its window
  // ----------------------------------------------------------------------------------

  /** The wires while transfer `i` of the same burst is reported. */
  function AtTransfer(v: Wires, i: nat): Wires {
    v.(counter := i, offset := i * Pow2(v.size) % Pow2(v.width))
  }

  /** The slot of its window in which a burst starts; the window has `len + 1` slots. */
  function FirstSlot(v: Wires): nat {
    Quotient(v.start % Pow2(v.size + LenLog2(v.len)), Pow2(v.size))
  }

  function Quotient(x: nat, m: nat): nat
    requires m > 0
  {
    x / m
  }

  /** Transfer `i` of the burst of `v` is reported for slot `slot` of the window. */
  ghost predicate InSlot(v: Wires, i: nat, slot: nat) {
    && i <= v.len
    && ToNat(Address(AtTransfer(v, i)))
       == v.start - v.start % Pow2(v.size + LenLog2(v.len)) + slot * Pow2(v.size)
  }

  /** The slot that is `i` slots after slot `p`, and the other way round, in a ring of `last + 1` slots. */
  function SlotAfter(p: nat, i: nat, last: nat): int {
    if p + i <= last then p + i else p + i - (last + 1)
  }

  function StepsTo(p: nat, slot: nat, last: nat): int {
    if slot >= p then slot - p else slot - p + last + 1
  }

  lemma GoAround(p: nat, i: nat, slot: nat, last: nat)
    requires p <= last && i <= last && slot <= last
    ensures 0 <= StepsTo(p, slot, last) <= last
    ensures SlotAfter(p, i, last) == slot <==> i == StepsTo(p, slot, last)
  {
  }

  function TransferOfSlot(v: Wires, slot: nat): int {
    StepsTo(FirstSlot(v), slot, v.len)
  }

  function SlotOf(v: Wires, i: nat): int {
    SlotAfter(FirstSlot(v), i, v.len)
  }

  lemma SlotCount(v: Wires)
    requires IsTransfer(v, v.counter) && IsWrap(v)
    ensures FirstSlot(v) <= v.len
    ensures v.start % Pow2(v.size + LenLog2(v.len)) == FirstSlot(v) * Pow2(v.size)
  {
    WindowSize(v);
    ModPow2(v.start, v.size, v.size + LenLog2(v.len));
    WholeSlots(v.start % Pow2(v.size + LenLog2(v.len)), v.len + 1, Pow2(v.size));
  }

  lemma WholeSlots(low: nat, n: nat, bytes: nat)
    requires bytes > 0 && low < bytes * n && low % bytes == 0
    ensures low == low / bytes * bytes && low / bytes < n
  {
    if low / bytes >= n { TimesMonotone(low / bytes, n, bytes); }
  }

  /** Adding slots modulo the number of slots is adding bytes modulo the window. */
  lemma SlotStep(p: nat, i: nat, n: nat, bytes: nat)
    requires p < n && i < n && bytes > 0
    ensures var slot := if p + i < n then p + i else p + i - n;
            (if p * bytes + i * bytes < n * bytes then p * bytes + i * bytes else p * bytes + i * bytes - n * bytes)
            == slot * bytes
  {
    assert (p + i) * bytes == p * bytes + i * bytes;
    if p + i < n {
      StepInWindow(p + i, n, bytes);
    } else {
      TimesMonotone(p + i, n, bytes);
      assert (p + i - n) * bytes == (p + i) * bytes - n * bytes;
    }
  }

  lemma SlotPlace(start: nat, window: nat, p: nat, i: nat, n: nat, bytes: nat)
    requires p < n && i < n && bytes > 0
    requires window == bytes * n > 0 && start % window == p * bytes
    ensures (start + i * bytes) % window == SlotAfter(p, i, n - 1) * bytes
  {
    StepInWindow(i, n, bytes);
    WindowStep(start, i * bytes, window);
    SlotStep(p, i, n, bytes);
  }

  lemma AddressAtTransfer(v: Wires, i: nat)
    requires IsTransfer(v, v.counter) && IsWrap(v) && v.size + LenLog2(v.len) <= 7 && i <= v.len
    ensures var window := Pow2(v.size + LenLog2(v.len));
            ToNat(Address(AtTransfer(v, i))) == v.start - v.start % window + (v.start + i * Pow2(v.size)) % window
  {
    WrapAddressRight(AtTransfer(v, i), i);
    WrapStandard(AtTransfer(v, i), i);
  }

  lemma SlotOfTransfer(v: Wires, i: nat)
    requires IsTransfer(v, v.counter) && IsWrap(v) && v.size + LenLog2(v.len) <= 7 && i <= v.len
    ensures SlotOf(v, i) >= 0 && InSlot(v, i, SlotOf(v, i))
  {
    AddressAtTransfer(v, i);
    SlotCount(v);
    WindowSize(v);
    SlotPlace(v.start, Pow2(v.size + LenLog2(v.len)), FirstSlot(v), i, v.len + 1, Pow2(v.size));
  }

  lemma SameSlot(base: int, x: nat, y: nat, bytes: nat)
    requires bytes > 0 && base + x * bytes == base + y * bytes
    ensures x == y
  {
    if x > y {
      StepInWindow(y, x, bytes);
    } else if y > x {
      StepInWindow(x, y, bytes);
    }
  }

  /** One transfer is reported for the slot. */
  lemma SlotIsVisited(v: Wires, slot: nat)
    requires IsTransfer(v, v.counter) && IsWrap(v) && v.size + LenLog2(v.len) <= 7 && slot <= v.len
    requires FirstSlot(v) <= v.len
    ensures TransferOfSlot(v, slot) >= 0 && InSlot(v, TransferOfSlot(v, slot), slot)
  {
    GoAround(FirstSlot(v), 0, slot, v.len);
    GoAround(FirstSlot(v), TransferOfSlot(v, slot), slot, v.len);
    SlotOfTransfer(v, TransferOfSlot(v, slot));
  }

  /** And no other. */
  lemma SlotIsUnique(v: Wires, i: nat, slot: nat)
    requires IsTransfer(v, v.counter) && IsWrap(v) && v.size + LenLog2(v.len) <= 7 && slot <= v.len
    requires FirstSlot(v) <= v.len
    requires InSlot(v, i, slot)
    ensures i == TransferOfSlot(v, slot)
  {
    SlotOfTransfer(v, i);
    SameSlot(v.start - v.start % Pow2(v.size + LenLog2(v.len)), SlotOf(v, i), slot, Pow2(v.size));
    GoAround(FirstSlot(v), i, slot, v.len);
  }

  /** A wrapping burst visits each slot of its window exactly once. */
  lemma WrapVisitsEachSlotOnce(v: Wires, slot: nat)
    requires IsTransfer(v, v.counter) && IsWrap(v) && v.size + LenLog2(v.len) <= 7 && slot <= v.len
    ensures TransferOfSlot(v, slot) >= 0 && InSlot(v, TransferOfSlot(v, slot), slot)
    ensures forall i: nat | InSlot(v, i, slot) :: i == TransferOfSlot(v, slot)
  {
    SlotCount(v);
    SlotIsVisited(v, slot);
    forall i: nat | InSlot(v, i, slot) ensures i == TransferOfSlot(v, slot) {
      SlotIsUnique(v, i, slot);
    }
  }

  // ----------------------------------------------------------------------------------
  // Runs of the observer
  // ----------------------------------------------------------------------------------

  /** The wires while a beat of a run is reported. */
  function WiresOf(beat: AxiWrite.Beat, width: nat, bus: nat): Wires {
    var aw := beat.tagged.aw;
    Wires(width, bus, aw.addr, aw.size, aw.len, aw.burst, beat.counter, beat.offset)
  }

  /** An AW transfer the standard allows on a bus of 2^bus bytes. */
  predicate LegalAddress(aw: AxiWrite.Address, width: nat, bus: nat) {
    && aw.addr < Pow2(width) && aw.len < 256 && aw.size < 8 && aw.size <= bus <= width
    && (aw.burst == WRAP ==>
        WrapLengthOk(aw.len) && aw.addr % Pow2(aw.size) == 0 && aw.size + LenLog2(aw.len) <= width)
  }

  /**
   On every run that meets the assertions, each W transfer is reported in its due cycle, and
   with the bus word and the byte lanes the standard gives its position in its burst, exactly
   when the burst is not one of the two kinds the observer misplaces.
   */
  lemma EveryBeatPlaced(c: AxiWrite.Config, run: seq<AxiWrite.Signals>, j: nat, width: nat, bus: nat)
    requires c.space == Pow2(width)
    requires AxiWrite.DepthSuffices(c, run) && AxiProphecy.LastFlagsFit(c, run)
    requires AxiWrite.Served(run, j) && AxiWrite.DueCycle(run, j) < |run|
    requires forall k | 0 <= k < |Payloads(AxiWrite.AwEvents(run))| ::
               LegalAddress(Payloads(AxiWrite.AwEvents(run))[k].aw, width, bus)
    ensures var beat, i := AxiWrite.DueBeat(c, run, j), AxiWrite.BeatInBurst(Payloads(AxiWrite.WEvents(run)), j);
            && AxiWrite.ReportAt(c, run, AxiWrite.DueCycle(run, j)) == Some(beat)
            && (AsStandard(WiresOf(beat, width, bus), i) <==> PlacedRight(WiresOf(beat, width, bus), i))
  {
    var beat, i := AxiWrite.DueBeat(c, run, j), AxiWrite.BeatInBurst(Payloads(AxiWrite.WEvents(run)), j);
    AxiProphecy.BurstShape(c, run, j);
    BeatsAsStandard(WiresOf(beat, width, bus), i);
  }
}
