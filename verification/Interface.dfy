/** Widths that the monitor and the checkers take from the RISC-V Formal Interface. */
module Interface {

  /** Register numbers have 5 bits. */
  type Reg = r: int | 0 <= r < 32

  /** Orders have 64 bits. */
  const WRAP: nat := 0x1_0000_0000_0000_0000

  /** Comparison of addresses: all invalid addresses are the same. */
  predicate AddrEq(addrValid: nat -> bool, a: nat, b: nat) {
    addrValid(a) == addrValid(b) && (!addrValid(a) || a == b)
  }
}
