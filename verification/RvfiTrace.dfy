/** Traces of the RISC-V Formal Interface as the checkers of checks/ see them. */
module RvfiTrace {

  import opened Interface

  datatype Insn = Insn(
    order: nat, trap: bool, intr: bool,
    rs1Addr: Reg, rs1Data: nat, rs2Addr: Reg, rs2Data: nat,
    rdAddr: Reg, rdData: nat,
    pcRead: nat, pcWrite: nat)

  /** One channel in one cycle; the fields are driven even when nothing retires. */
  datatype Channel = Channel(valid: bool, insn: Insn)

  type Trace = seq<seq<Channel>>

  /** Instruction (t, c): something retires on channel c in cycle t. */
  predicate Retires(trace: Trace, t: nat, c: nat) {
    t < |trace| && c < |trace[t]| && trace[t][c].valid
  }

  function At(trace: Trace, t: nat, c: nat): Insn
    requires t < |trace| && c < |trace[t]|
  {
    trace[t][c].insn
  }

  /** Retirement order: by cycle, then by channel. */
  predicate Earlier(t: nat, c: nat, t': nat, c': nat) {
    t < t' || (t == t' && c < c')
  }

  /** No index is used twice. */
  ghost predicate UniqueOrders(trace: Trace) {
    forall t, c, t', c' | Retires(trace, t, c) && Retires(trace, t', c') && Earlier(t, c, t', c') ::
      At(trace, t, c).order != At(trace, t', c').order
  }

  predicate Reads(i: Insn, r: Reg) {
    i.rs1Addr == r || i.rs2Addr == r
  }

  /** A write that takes effect: the instruction does not trap. */
  predicate Writes(i: Insn, r: Reg) {
    !i.trap && i.rdAddr == r
  }
}
