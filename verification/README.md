# Verified models of riscv-formal

riscv-formal checks RISC-V cores against formal models of the instruction set. Its own logic is
hardware that watches other hardware: reorder buffers, shadow registers, bus observers, symbolic
checkers, instruction models. When that logic is wrong, a correct core is blamed or a broken one
passes. This project models the parts with state, protocol or non-trivial arithmetic and proves
what they decide.

Four groups of modules:

* **The runtime monitor** that `monitor/generate.py` emits: the reorder buffer (`Rob`, `RobOrder`,
  `RobKept`, `RobWindow`), the shadow register file (`Shadow`), the shadow pc (`ShadowPc`), the
  machine made of all of them and its single output `errcode` (`Monitor`, `MonitorRuns`), what a
  code on that output says (`MonitorCodes`), the monitor on cores that execute a program
  (`MonitorPrograms`), resets at any time (`RobResets`, `MonitorResets`), and the loop of
  `print_rewrite_file` with the text it reads (`Rewrite`, `RewriteLines`).
* **The AXI4 write observer**: its FIFO (`Fifo`), the observer itself (`AxiWrite`), the order and
  the cycle of its reports (`AxiSchedule`), the guessed responses (`AxiProphecy`), when its
  assertions on the FIFOs hold (`AxiDepth`), and the address and lane arithmetic of bursts against
  the AXI standard (`AxiBurst`).
* **The symbolic checkers over whole traces**: register and causality checks (`RvfiTrace`,
  `RegCheck`, `RegTheorem`), pc checks (`PcCheck`), and the memory assertions of the instruction
  check (`InsnCheck`).
* **Instruction models with loops or wide arithmetic**: carry-less products (`Clmul`), bit and byte
  permutations and counts (`BitPerm`), high-half products (`MulHigh`), loads and stores in both
  memory models (`MemModel`), on words of arbitrary width (`Words`).

`Interface`, `Options`, `Events` and `Powers` hold what several modules share: register numbers, the
range of orders and the comparison of addresses, optional values, event logs, powers of two.

Every clocked block is a class whose method `Clock` is one clock edge. Its contract equates the new
state with a function of the old one, and the lemmas are about runs of that function. Non-blocking
assignments read old values; `cursor` and `continue_flag` are blocking. Checkers have `check` high
in one cycle; "for every choice" quantifies over the symbolic order, register, channel and cycle.
Depths, channel counts, word and address widths and run lengths are arbitrary. Orders and the
cursor are 64-bit, the burst counter 8-bit, error codes 16-bit, the WRAP shift amount 3-bit.

Standards used: ARM IHI 0022E section A3.4.1 (burst addresses and lanes), RISC-V Bit-Manipulation
ISA-extensions 1.0.0 section Zbc, RISC-V Unprivileged ISA 20191213 section 7.1, IEEE 1364-2005
section 19.4.

## What the proofs found

* Two packets that enter one slot of the reorder buffer in the same clock are not reported, and one
  is lost (`RobOrder.SilentLoss`).  On every run without a code, a packet presented once is released
  or waits in its slot iff no later channel of its clock stored into that slot
  (`RobKept.AccountedIff`).
* Error code 33, "expected intr after trap", can never be raised
  (`ShadowPc.MissingInterruptIsNeverReported`), and whatever follows a trap in a later clock is
  accepted (`ShadowPc.AnythingGoesAfterTrap`).
* The shadow pc overlay uses the trap bit of the channel being checked instead of the one that
  traps (`monitor/generate.py:384-385`).  A legal pair of packets is rejected when both retire in one
  clock (`ShadowPc.FalseAlarm`), an illegal pair is accepted (`ShadowPc.MissedError`);
  `ShadowPc.VerdictsAgreeIff` says exactly when the verdict is the right one, and
  `MonitorRuns.ErrcodeMeaning` what the output means all the same.
* With more than 599 channels a code no longer tells its source (`Shadow.CodesTellSource`), and with
  more than 7863 the 16-bit code of a register mismatch is cut to zero (`Shadow.CodesVisibleIff`).
* The backward pc checker tests the interrupt bit of its own channel instead of the younger
  instruction's (`PcCheck.WrongChannelInterrupt`, exact condition in `PcCheck.BwdRightIff`).
* `docs/source/procedure.rst:373` allows any causal out-of-order retirement, but the register
  checker takes the write that retired last for the latest one; writes of one register that retire
  out of order are misjudged (`RegTheorem.OutOfOrderWritesMisjudged`, exact condition in
  `RegTheorem.VerdictRightIff`).
* The register checker may choose x0, and then it takes whatever a core reports as written to x0 for
  its value: a sequential trace is rejected (`RegTheorem.ZeroRegisterRejected`).  It cannot happen
  to cores whose reads and reported writes of x0 are zero (`RegTheorem.ZeroRegisterPasses`).
* WRAP bursts of 256 bytes or more are reported as if their address never moved
  (`AxiBurst.WrapBeats`), and unaligned FIXED bursts get too wide a lane mask after their first
  beat (`AxiBurst.FixedBeats`).
* The memory assertions of the instruction check are exactly the specified effect on memory, plus
  one demand: a store may not be dropped because the byte is already there
  (`InsnCheck.WriteAssertionsAreExact`).

## Model

| member | source | states |
|---|---|---|
| Fifo.SyncFifo.Wires | bus/rvfi_bus_util.sv:71-95 | in every reachable state the wires in front of each stage follow from the number of queued entries alone, so the chain behaves like one queue |
| Fifo.SyncFifo.Out | bus/rvfi_bus_util.sv:71-95 | output valid iff something is queued or arriving; the value is the oldest, with zero latency when empty |
| Fifo.SyncFifo.InReady | bus/rvfi_bus_util.sv:71-95 | ready iff fewer than DEPTH entries are queued or one leaves |
| Fifo.SyncFifo.Clock | bus/rvfi_bus_util.sv:32-51 | one edge of all stages is one step of a bounded queue |
| Fifo.PackedLayout | bus/rvfi_bus_util.sv:32-51 | after a full stage all stages are full, and the queue lies in them in reverse order |
| Fifo.LayoutIsQueue | bus/rvfi_bus_util.sv:32-51 | a chain laid out like a queue is in a legal state and holds that queue |
| Fifo.ClockedChain | bus/rvfi_bus_util.sv:32-95 | clocking every stage against the ready and valid ripple keeps the chain packed and moves the queue by one step, for every depth |
| Fifo.Conservation | bus/rvfi_bus_util.sv:71-95 | over whole runs: what left, then what is queued, is what entered, in order; never more than DEPTH queued |
| AxiWrite.Observer.constructor | bus/rvfi_bus_axi4.sv:114-180 | the observer after reset: three empty FIFOs and cleared burst registers |
| AxiWrite.Observer.Sample | bus/rvfi_bus_axi4.sv:114-178 | the reported beat and the outcome of each assertion and of the assumption of a cycle, from the three FIFOs |
| AxiWrite.Observer.ClockBurst | bus/rvfi_bus_axi4.sv:179-198 | burst counter (8 bits) and offset (address width) after a cycle |
| AxiWrite.Observer.Clock | bus/rvfi_bus_axi4.sv:114-198 | one cycle of the whole observer is one step of the abstract observer |
| AxiSchedule.VisibleStep | bus/rvfi_bus_axi4.sv:114-144 | what both FIFOs show in a cycle, as pieces of the bus history |
| AxiSchedule.QueuesThroughout | bus/rvfi_bus_axi4.sv:114-198 | at all times the FIFOs hold exactly the transfers not yet reported and the burst registers the position of the next beat |
| AxiSchedule.GreedyIsOnTime | bus/rvfi_bus_axi4.sv:18-38 | one report per cycle as soon as possible means every item leaves exactly in its due cycle |
| AxiSchedule.DueIncreases | bus/rvfi_bus_axi4.sv:18-38 | due cycles are strictly increasing in bus order |
| AxiSchedule.Schedule | bus/rvfi_bus_axi4.sv:18-38 | beat j is reported with the address of its burst in the latest of its W cycle, its AW cycle and the cycle after the previous report, and nothing else is ever reported |
| AxiProphecy.ConfirmedIffEqual | bus/rvfi_bus_axi4.sv:277-288 | the assumption holds on a run iff the guesses taken from the FIFO equal the responses that took them |
| AxiProphecy.GuessesExist | bus/rvfi_bus_axi4.sv:277-288 | for every bus behaviour, even an illegal one, some guesses satisfy the assumption, and with them every assertion comes out and every beat is reported as with any others, so it hides no error |
| AxiProphecy.Prophecy | bus/rvfi_bus_axi4.sv:121-166 | with room in the FIFO the assumption says exactly: guess k is response k |
| AxiProphecy.ResponseOfEveryBeat | bus/rvfi_bus_axi4.sv:277-306 | every beat of the k-th burst carries the response of the k-th B transfer, although that comes later |
| AxiProphecy.BurstShape | bus/rvfi_bus_axi4.sv:182-198 | while the wlast assertion holds the 8-bit counter is the true position in the burst and a burst ends exactly at awlen |
| AxiProphecy.LastFlagsMeaning | bus/rvfi_bus_axi4.sv:179-198 | the wlast assertion holds throughout iff every beat due in the run is marked last exactly at position awlen of its burst |
| AxiDepth.DepthMeaning | bus/rvfi_bus_axi4.sv:168-178 | as long as they have held, the DEPTH assertions of a cycle hold iff at its end at most DEPTH addresses wait for their data, at most DEPTH for their response, and at most DEPTH beats for their report, all counted on the bus |
| AxiDepth.ResponseMeaning | bus/rvfi_bus_axi4.sv:277-281 | as long as both kinds have held, the assertion on responses holds iff B transfers do not outnumber AW transfers |
| AxiDepth.AssertionsMeaning | bus/rvfi_bus_axi4.sv:168-281 | the same over whole runs, in both directions |
| AxiDepth.DepartedWhenDue | bus/rvfi_bus_axi4.sv:18-38 | the beats that no longer wait in those counts are the ones whose due cycle is over |
| AxiBurst.RoundDownIsQuotient | bus/rvfi_bus_axi4.sv:219-225 | the alignment of addresses is INT(address / n) * n of section A3.4.1 |
| AxiBurst.WrapLengths | bus/rvfi_bus_axi4.sv:239-250 | the length assertion lets exactly the powers of two up to 16 through, and the logarithm is right for them |
| AxiBurst.Lanes | bus/rvfi_bus_axi4.sv:229-237 | the two shifted masks are one run of lanes, given by the address modulo bus and transfer size |
| AxiBurst.AddressOfWrap | bus/rvfi_bus_axi4.sv:215-217 | the masked sum is an address that moves inside an aligned power-of-two window |
| AxiBurst.FirstBeat | bus/rvfi_bus_axi4.sv:215-237 | the first transfer has the address and lanes of section A3.4.1 for every burst type and alignment |
| AxiBurst.IncrBeats | bus/rvfi_bus_axi4.sv:215-255 | every transfer of an INCR burst of any alignment has the address and lanes of section A3.4.1 |
| AxiBurst.FixedBeats | bus/rvfi_bus_axi4.sv:232-253 | a later transfer of a FIXED burst is right iff the address is aligned to the transfer size |
| AxiBurst.WrapBeats | bus/rvfi_bus_axi4.sv:239-257 | a later transfer of an aligned WRAP burst is right iff awsize + log2(length) fits the 3 bits of the shift amount |
| AxiBurst.OverflowKeepsAddress | bus/rvfi_bus_axi4.sv:256-257 | when the shift amount overflows the reported address stays at the start |
| AxiBurst.WrapVisitsEachSlotOnce | bus/rvfi_bus_axi4.sv:215-257 | a WRAP burst visits each slot of its window exactly once |
| AxiBurst.BeatsAsStandard | bus/rvfi_bus_axi4.sv:187-264 | for all burst types together, the exact set of transfers placed as section A3.4.1 says |
| AxiBurst.StrobesMeaning | bus/rvfi_bus_axi4.sv:266-276 | the strobe assertion holds iff every strobed byte lies in the lanes of the standard |
| AxiBurst.EveryBeatPlaced | bus/rvfi_bus_axi4.sv:187-264 | on every run of the observer that meets its assertions, each reported beat is placed as the standard says iff it is in that set |
| Rob.ReorderBuffer.constructor | monitor/generate.py:547-549 | the registers after reset; the buffer contents are arbitrary |
| Rob.ReorderBuffer.Store | monitor/generate.py:552-558 | the loop over the input channels, with old valid bits deciding collisions |
| Rob.ReorderBuffer.Drain | monitor/generate.py:560-571 | the loop over the output channels with blocking cursor and continue flag |
| Rob.ReorderBuffer.Clock | monitor/generate.py:542-574 | one clock, clearing after storing |
| Rob.DepthsArePowers | monitor/generate.py:37-37 | the depths modelled are exactly the powers of two up to 2^64 |
| RobOrder.GenuineThroughout | monitor/generate.py:552-558 | an occupied slot always holds a packet that was presented earlier |
| RobOrder.ReleasedArrivedEarlier | monitor/generate.py:552-571 | a released packet entered in a strictly earlier clock, order and data unchanged |
| RobOrder.ReleasedArrived | monitor/generate.py:552-571 | every packet ever released was presented on an input channel |
| RobOrder.DrainCodeMeaning | monitor/generate.py:560-563 | a 61xxx code is raised iff some drained slot has the wrong order |
| RobOrder.CollisionCodeRange | monitor/generate.py:552-555 | a 60xxx code is raised iff some packet meets an occupied slot |
| RobOrder.CollisionCodeTells | monitor/generate.py:552-555 | a 60xxx code is the low byte of the order of the last packet that met an occupied slot |
| RobOrder.DrainCodeTells | monitor/generate.py:560-563 | a 61xxx code is the low byte of the last order drained from a slot with another order |
| RobOrder.ClockReleases | monitor/generate.py:560-571 | a clock releases the occupied slots from the cursor on, until the first gap, on the lowest channels in order |
| RobOrder.CursorCounts | monitor/generate.py:568-568 | the cursor is the number of released packets modulo 2^64 |
| RobOrder.ReleasedInOrder | monitor/generate.py:560-571 | without a 61xxx code the k-th released packet has order k, whatever the arrivals |
| RobOrder.KeptIffLastInSlot | monitor/generate.py:552-558 | a silent clock keeps a packet iff no later channel of that clock stores into its slot |
| RobOrder.SilentLoss | monitor/generate.py:552-558 | a concrete clock that loses a packet without a code |
| RobKept.KeptThroughout | monitor/generate.py:542-574 | on every run without a code, whatever arrives, a packet not overwritten in its own clock has been released or waits in its slot |
| RobKept.LostThroughout | monitor/generate.py:542-574 | a packet presented once and overwritten in its own clock is never released nor held, reported or not |
| RobKept.AccountedIff | monitor/generate.py:542-574 | the two together: accounted for iff no later channel of its clock stored into its slot |
| RobResets.ResetRestarts | monitor/generate.py:544-549 | a clock with reset makes the state runs start from, with cursor 0, whatever the registers hold |
| RobResets.RunSinceReset | monitor/generate.py:542-574 | with resets in any clocks and any initial contents, everything since the last reset is a run from reset |
| RobResets.CursorSinceReset | monitor/generate.py:548-568 | the cursor counts the packets released since the last reset and only those |
| RobResets.ReleasedAfterReset | monitor/generate.py:542-574 | without a code since the last reset, the packets released since then carry orders 0, 1, 2, ... and were presented since then |
| RobWindow.StoreHolds | monitor/generate.py:552-558 | arrivals inside the window each get their own slot |
| RobWindow.DrainIsContiguous | monitor/generate.py:560-571 | the drain takes exactly the contiguous arrivals, up to one per channel |
| RobWindow.WindowInvariant | monitor/generate.py:542-571 | distinct arrivals inside the window never raise a code, and the ring holds exactly the arrivals not yet released |
| RobWindow.NothingLost | monitor/generate.py:542-571 | every arrived packet has been released in order or is in its slot, and no code is ever raised |
| RobWindow.ProgressBound | monitor/generate.py:560-571 | once all orders below k have arrived they are released within ceil((k - cursor) / channels) further clocks |
| Shadow.ShadowRegisters.Forward | monitor/generate.py:455-471 | the combinational overlay gives the register as the lower channels of the clock leave it |
| Shadow.ShadowRegisters.Compare | monitor/generate.py:485-488 | the code of a channel, against the registers after all lower channels |
| Shadow.ShadowRegisters.Update | monitor/generate.py:474-492 | the clocked loop equals processing the valid channels one at a time, and gives each the code of that comparison |
| Shadow.ShadowRegisters.Clock | monitor/generate.py:418-492 | one clock with or without reset |
| Shadow.WrittenRegister | monitor/generate.py:474-492 | a shadow register holds the latest earlier write, or is unknown if there is none (x0: zero) |
| Shadow.ReadsOkIffSequential | monitor/generate.py:456-492 | comparing one packet after another from reset accepts exactly the sequential streams |
| Shadow.RegisterCodeMeaning | monitor/generate.py:485-488 | a channel's code is zero iff both of its reads agree |
| Shadow.SilentIffReadsOk | monitor/generate.py:456-492 | for any number of channels, no channel of a clock reports iff each packet agrees with the ones before it |
| Shadow.CodesVisibleIff | monitor/generate.py:485-488 | no rs2 code is cut to zero by its 16 bits iff there are at most 7863 channels |
| Shadow.RegisterCodeTells | monitor/generate.py:485-488 | the number of a code blames rs2 (32) or rs1 alone (31) exactly when that read is wrong |
| Shadow.CodesTellSource | monitor/generate.py:402-488 | codes name channel and kind, and are none of the buffer's, iff there are at most 599 channels |
| ShadowPc.ShadowCounter.Forward | monitor/generate.py:377-388 | the overlay of the pc chain, with its own trap bit |
| ShadowPc.ShadowCounter.Compare | monitor/generate.py:402-409 | the code of a channel, the second comparison overriding the first |
| ShadowPc.ShadowCounter.Update | monitor/generate.py:391-413 | next state and codes of all channels |
| ShadowPc.ShadowCounter.Clock | monitor/generate.py:391-413 | one clock with or without reset |
| ShadowPc.MissingInterruptIsNeverReported | monitor/generate.py:404-411 | code 33 is dead in every reachable state |
| ShadowPc.AnythingGoesAfterTrap | monitor/generate.py:404-412 | after a trap the lowest occupied channel of the next clock is accepted with every pc, for any number of channels |
| ShadowPc.VerdictsAgreeIff | monitor/generate.py:382-387 | the emitted verdict is the one-at-a-time verdict iff the two trap bits agree or the check could not fail |
| ShadowPc.FalseAlarm | monitor/generate.py:382-387 | a concrete legal pair that is reported in one clock and accepted in two |
| ShadowPc.MissedError | monitor/generate.py:382-387 | a concrete illegal pair that is accepted in one clock and reported in two |
| ShadowPc.ChannelSilentIff | monitor/generate.py:377-413 | a channel is silent iff its packet continues the state, or, with a lower channel occupied, traps, enters an interrupt or continues the packet below |
| ShadowPc.SilentIffLinked | monitor/generate.py:377-413 | a clock is silent iff all its occupied channels are, for every number of channels and all trap bits |
| ShadowPc.LinkedTogetherIsLinked | monitor/generate.py:377-413 | where the trap bits make no difference, that is the linkage of the stream |
| Monitor.RuntimeMonitor.Collect | monitor/generate.py:497-503 | the output is the last nonzero code |
| Monitor.RuntimeMonitor.Clock | monitor/generate.py:377-505 | one clock of buffer, registers, pc chain and output together, each seeing the others as they were |
| Monitor.AggregateZero | monitor/generate.py:497-503 | the output is zero iff every code is |
| Monitor.AggregateIsLast | monitor/generate.py:501-502 | otherwise it is a code of which all later ones are zero |
| Monitor.Priority | monitor/generate.py:497-503 | register codes override pc codes, these the buffer's code, and that the instruction codes |
| Monitor.RegistersOfMonitor | monitor/generate.py:474-492 | the shadow registers have seen exactly the packets released up to the previous clock |
| MonitorRuns.RegistersSilentIff | monitor/generate.py:456-492 | the register codes stay silent iff every read of the released stream agrees |
| MonitorRuns.PcSilentIff | monitor/generate.py:377-413 | on every run the pc codes stay silent iff the packets of each clock follow the ones released before and each other, by the trap bit the overlay looks at |
| MonitorRuns.LinkedBurstsAreLinked | monitor/generate.py:377-413 | where no two packets of a clock make a difference by that bit, this is the linkage of the released stream, however it is cut into clocks |
| MonitorRuns.AggregatedNextClock | monitor/generate.py:497-505 | the output is nonzero exactly one clock after some code is nonzero |
| MonitorRuns.ErrcodeMeaning | monitor/generate.py:377-574 | on every run the output stays zero iff no instruction or order check reports, the released packets execute sequentially and each clock's packets follow the earlier ones |
| MonitorRuns.ErrcodeMeaningInOrder | monitor/generate.py:377-574 | with one channel, or when no arriving packet traps, the last part is that the released stream has linked pcs |
| MonitorRuns.Soundness | monitor/generate.py:377-574 | a zero output means: orders 0, 1, 2, ..., each presented with that order and data, each reading the latest earlier writes, and the pcs of every clock following the earlier ones |
| MonitorRuns.SoundnessOfBuffer | monitor/generate.py:542-574 | while the output is zero, a presented packet has been released or waits in its slot unless a later channel of its clock stored there; one presented once and overwritten is gone |
| MonitorPrograms.Completeness | monitor/generate.py:377-574 | a sequential program retired once, in any order inside the window, never raises the output |
| MonitorPrograms.Detection | monitor/generate.py:377-574 | once every order below k has arrived inside the window: if the output is still zero two clocks after the bound of the drain, the first k instructions are a sequential execution, with linked pcs for one channel or without traps |
| MonitorCodes.Diagnosis | monitor/generate.py:377-574 | a code on the output names, for what happened two clocks before, a channel and the wrong field of its packet, the order of a packet that met an occupied slot, or a wrongly drained order |
| MonitorResets.ResetRestarts | monitor/generate.py:377-549 | a clock with reset makes the state that runs of the whole monitor start from |
| MonitorResets.MeaningAfterReset | monitor/generate.py:377-574 | with resets in any clocks and any initial contents, the output stays zero since the last reset iff what was released since then is sequential and linked and nothing else reported |
| RewriteLines.ClassifySpelled | monitor/generate.py:602-625 | every directive or text line, written in the usual way, is recognised by the tests of the loop as that line |
| RewriteLines.ClassifyIfdef | monitor/generate.py:603-604 | in any spelling the flag of an ifdef line is the first word behind the directive, and a line without one is an index error |
| RewriteLines.ClassifyIfndef | monitor/generate.py:610-611 | the same for ifndef |
| RewriteLines.ClassifyOthers | monitor/generate.py:617-622 | lines that start with else or endif are these directives, whatever follows |
| RewriteLines.ClassifyText | monitor/generate.py:603-622 | all other lines are text |
| RewriteLines.SplitAtBlank | monitor/generate.py:604-604 | blanks separate: the words of a text are those before a blank and those behind it |
| RewriteLines.Blanks | monitor/generate.py:604-604 | which characters separate words |
| RewriteLines.ReplaceOnce | monitor/generate.py:630-631 | a table of one entry is one replacement |
| RewriteLines.ReplaceInTurn | monitor/generate.py:630-631 | a longer table works through its parts one after the other |
| RewriteLines.ReplaceBySelf | monitor/generate.py:630-631 | cutting a text at a pattern and joining it with the pattern gives the text back |
| RewriteLines.ReplaceNothing | monitor/generate.py:630-631 | text without the pattern is left as it is |
| RewriteLines.ReplaceFirst | monitor/generate.py:630-631 | the first occurrence is replaced and what lies behind it is treated the same way; what lies before it stays |
| Rewrite.RewriteLine | monitor/generate.py:630-631 | the loop over the table applies all replacements in its order |
| Rewrite.RewriteFile | monitor/generate.py:597-633 | the loop over the text of the lines with its flag stack and dictionary, which always hold the same flags; each way of failing included |
| Rewrite.StepKeepsConsistent | monitor/generate.py:602-628 | every line keeps the dictionary's keys equal to the flags on the stack, without duplicates |
| Rewrite.RunFlattened | monitor/generate.py:602-633 | from any consistent state a nested text runs to its meaning and restores stack and flags |
| Rewrite.RewriteIsConditionalCompilation | monitor/generate.py:597-633 | the loop emits exactly the lines section 19.4 of IEEE 1364-2005 keeps and ends with nothing open, iff no flag is nested inside itself; otherwise it stops at the assertion |
| Rewrite.TextIsCompiled | monitor/generate.py:597-633 | the same for text: every well-nested text in the usual spelling comes out compiled, with the replacements of the table |
| Rewrite.StrayDirectiveStops | monitor/generate.py:603-625 | a directive that closes or switches nothing, or lacks its flag, stops the loop with an index error |
| RegCheck.RegisterChecker.Clock | checks/rvfi_reg_check.sv:24-54 | one clock of the register checker: shadow, assumptions and assertions |
| RegCheck.CausalChecker.Clock | checks/rvfi_causal_check.sv:23-51 | one clock of the causality checker and its sticky flag |
| RegCheck.ShadowOfClocks | checks/rvfi_reg_check.sv:25-53 | clocking cycle by cycle reaches the shadow that the trace semantics gives |
| RegCheck.ShadowSource | checks/rvfi_reg_check.sv:41-50 | the shadow holds the smaller-order write that retired last, if there is one |
| RegCheck.FoundMeaning | checks/rvfi_causal_check.sv:24-50 | the sticky flag is set iff a younger reader has retired |
| RegCheck.TrapsWriteNothing | checks/rvfi_reg_check.sv:28-47 | what a trapping instruction reports as written does not change any verdict |
| RegTheorem.CausalChecksSayCausal | checks/rvfi_causal_check.sv:24-50 | passing for every choice makes the trace causal |
| RegTheorem.CausalSaysChecksPass | checks/rvfi_causal_check.sv:24-50 | and the other way round |
| RegTheorem.RegCheckIffReadsLastRetired | checks/rvfi_reg_check.sv:25-53 | for every trace, instruction and register, x0 included: passing is reading the smaller-order write that retired last, through every operand that names the register |
| RegTheorem.AllRegChecksMeaning | checks/rvfi_reg_check.sv:19-53 | all choices of the register checker pass iff that holds of every instruction and register, without any condition on the trace |
| RegTheorem.RegCheckIffReadsLatest | checks/rvfi_reg_check.sv:25-53 | for one instruction and register, passing is reading the latest write in program order, if this reader's last retired write has the highest order |
| RegTheorem.RegisterChecksMeaning | checks/rvfi_reg_check.sv:19-53 | all register and causality checks pass iff the whole trace is causal, every read, in whatever order it retires, sees the latest smaller-order write, and reads of x0 agree with what is reported as written to it |
| RegTheorem.OrderedWritesSuffice | checks/rvfi_reg_check.sv:41-50 | its condition on readers holds when the writes of every register retire in program order |
| RegTheorem.VerdictAgainstProgramOrder | checks/rvfi_reg_check.sv:25-53 | for any reader, through either operand or both: the checker accepts the last retired write, the program demands the latest, and when the two are the same instruction |
| RegTheorem.VerdictRightIff | checks/rvfi_reg_check.sv:25-53 | the verdict is the one of program order iff the two writes left the same value or the reader has neither value |
| RegTheorem.OutOfOrderWritesMisjudged | checks/rvfi_reg_check.sv:41-50 | a causal trace whose right value is rejected and whose stale value passes |
| RegTheorem.ZeroRegisterPasses | checks/rvfi_insn_check.sv:143-177 | the choice of x0 passes when reads of x0 and reported writes to it are zero, as the instruction check demands |
| RegTheorem.ZeroRegisterRejected | checks/rvfi_reg_check.sv:19-53 | a sequential, causal, ordered trace that is rejected for the choice of x0 |
| PcCheck.ForwardChecker.Clock | checks/rvfi_pc_fwd_check.sv:20-52 | one clock of the forward checker |
| PcCheck.BackwardChecker.Clock | checks/rvfi_pc_bwd_check.sv:20-52 | one clock of the backward checker, with the interrupt bit of its own channel |
| PcCheck.FwdSource | checks/rvfi_pc_fwd_check.sv:26-49 | the expectation is the pc_wdata of the predecessor when it has retired |
| PcCheck.BwdSource | checks/rvfi_pc_bwd_check.sv:26-49 | the expectation is the pc_rdata of the successor when it has retired, disabled by the checker's own interrupt bit |
| PcCheck.FwdDecides | checks/rvfi_pc_fwd_check.sv:26-49 | the forward check passes iff the link to an earlier retired predecessor holds |
| PcCheck.BwdDecides | checks/rvfi_pc_bwd_check.sv:26-49 | the backward check decides the link to an earlier retired successor, by its own interrupt bit |
| PcCheck.BwdRightIff | checks/rvfi_pc_bwd_check.sv:26-49 | its verdict is right iff the two interrupt bits agree or the pc continues |
| PcCheck.PcChecksCoverEveryLink | checks/rvfi_pc_fwd_check.sv:26-49 | with one channel both checks pass for every choice iff over every retired adjacent pair, in either retirement order, the two addresses are the same number, or neither is valid, or an interrupt is entered |
| PcCheck.PcChecksCompareNumbers | checks/rvfi_macros.py:287-287 | where all addresses are valid they pass iff the two numbers are equal |
| PcCheck.PcChecksMeaning | checks/rvfi_pc_bwd_check.sv:26-49 | for any number of channels and all interrupt bits, both checks pass for every choice iff every retired adjacent pair continues or the interrupt bit that the deciding checker looks at is set |
| PcCheck.VisibleLinks | checks/rvfi_pc_bwd_check.sv:26-49 | where that bit is the younger instruction's, those are the links of the program |
| PcCheck.WrongChannelInterrupt | checks/rvfi_pc_bwd_check.sv:26-49 | a legal two-channel trace that is rejected |
| InsnCheck.VerdictMeaning | checks/rvfi_insn_check.sv:143-198 | the whole verdict for every specification and core: after a fault trap without a register or memory write; otherwise trap iff specified, and if not, the specified registers, pc and effect on every memory |
| InsnCheck.FaultsIff | checks/rvfi_insn_check.sv:124-143 | what counts as a fault |
| InsnCheck.LoadVerdict | checks/rvfi_insn_check.sv:143-198 | a load passes iff it faults as it must, traps iff misaligned in the aligned model, and otherwise returns the extended bytes at its address from every memory its reads agree with, claims those bytes and changes nothing |
| InsnCheck.StoreVerdict | checks/rvfi_insn_check.sv:143-198 | a store passes iff it faults as it must, traps iff misaligned in the aligned model, and otherwise replaces exactly the bytes at its address, and claims them |
| InsnCheck.PassingCoreWritesAsSpecified | checks/rvfi_insn_check.sv:180-195 | a passing core leaves the specified memory for every memory its reads agree with, widened read-modify-write stores included |
| InsnCheck.WriteAssertionsAreExact | checks/rvfi_insn_check.sv:184-191 | the byte assertions hold iff the effect is the specified one on every such memory and every specified byte is claimed as written |
| InsnCheck.FailingLaneShows | checks/rvfi_insn_check.sv:184-191 | a failing lane makes a difference in some memory |
| InsnCheck.PassingLoad | checks/rvfi_insn_check.sv:169-198 | a load that passes returned the bytes at its address, extended, and changed nothing |
| InsnCheck.PassingStore | checks/rvfi_insn_check.sv:169-198 | a store that passes replaced the bytes at its address by the low bytes of rs2, and nothing else |
| Clmul.CarryLessLow | insns/insn_clmul.v:44-57 | the loop computes the low half of the polynomial product over GF(2) |
| Clmul.CarryLessHigh | insns/insn_clmulh.v:44-57 | the loop from 1 to XLEN computes the high half |
| Clmul.CarryLessReversed | insns/insn_clmulr.v:44-57 | the loop computes bits XLEN-1 to 2 XLEN - 2 of the product |
| Clmul.HalvesMakeTheProduct | insns/generate.py:1637-1638 | clmulh and clmul together are the full product, as words and as numbers |
| Clmul.MiddleIsShifted | insns/generate.py:1641-1641 | clmulr is the product shifted right by XLEN - 1 with nothing lost, and clmulh is clmulr shifted by one |
| Clmul.InstructionsCommute | insns/generate.py:1637-1641 | all three are commutative |
| Clmul.MiddleIsReversedLow | insns/generate.py:1641-1641 | clmulr(a, b) = R(clmul(R(a), R(b))) for the reversal R of the word |
| Clmul.MiddleByByteReversals | insns/generate.py:1608-1641 | the same with R computed as rev8 after brev8 |
| Clmul.ProductDistributes | insns/generate.py:1301-1329 | the product is linear over exclusive or |
| Clmul.ProductIsShiftedSum | insns/insn_clmul.v:50-54 | the product is the schoolbook sum of the shifted copies of the first operand, for all operands |
| Clmul.ProductByMonomial | insns/insn_clmul.v:50-54 | multiplying by a word with one bit set shifts by its place |
| BitPerm.Zip | insns/generate.py:1378-1388 | the zip loop interleaves the halves |
| BitPerm.Unzip | insns/generate.py:1378-1385 | the unzip loop separates even and odd bits |
| BitPerm.ZipUnzip | insns/generate.py:1378-1390 | zip and unzip are mutually inverse |
| BitPerm.Brev8 | insns/generate.py:1278-1292 | the nested loop reverses the bits of every byte |
| BitPerm.Rev8 | insns/generate.py:1278-1292 | the loop over bytes reverses their order |
| BitPerm.ByteReversals | insns/generate.py:1608-1614 | brev8 and rev8 are involutions that commute and compose to the reversal of the word |
| BitPerm.ZipInterleaves | insns/generate.py:1378-1390 | zip takes the bits of the two halves in turn, and unzip puts them back |
| BitPerm.Brev8FirstByte | insns/generate.py:1278-1292 | brev8 reverses the first byte and the others in the same way |
| BitPerm.Rev8FirstByte | insns/generate.py:1278-1292 | rev8 puts the first byte behind the others |
| BitPerm.Clz | insns/generate.py:1170-1188 | the loop that restarts its count at every one gives the zeros above the highest one |
| BitPerm.Ctz | insns/generate.py:1170-1184 | the loop with the found flag gives the zeros below the lowest one |
| BitPerm.Cpop | insns/generate.py:1170-1181 | the loop counts the ones |
| BitPerm.ReversalSwapsCounts | insns/generate.py:1170-1188 | ctz(x) = clz(R(x)), clz(x) = ctz(R(x)) and the count of ones does not change |
| BitPerm.ZeroWord | insns/generate.py:1170-1188 | either count is XLEN iff the word is zero |
| BitPerm.LeadingZerosMeasures | insns/generate.py:1184-1188 | clz gives the smallest power of two above the number |
| BitPerm.TrailingZerosDivides | insns/generate.py:1182-1184 | ctz gives the largest power of two that divides the number |
| MulHigh.MulhExact | insns/insn_mulh.v:49-50 | mulh : mul is the exact 2 XLEN-bit product of the signed operands |
| MulHigh.MulhsuExact | insns/insn_mulhsu.v:49-50 | mulhsu : mul is the exact product of the signed first and the unsigned second operand |
| MulHigh.MulhuExact | insns/generate.py:1504-1504 | mulhu : mul is the exact product of the unsigned operands |
| MulHigh.LowerHalfIs | insns/generate.py:1499-1504 | the low half of every wide product is the result of mul |
| MemModel.LoadMeaning | insns/generate.py:519-551 | in either model a load that does not trap returns the extended bytes at its address, for any memory the read data agree with |
| MemModel.StoreMeaning | insns/generate.py:563-587 | in either model a store that does not trap replaces exactly the bytes at its address |
| MemModel.LoadsAgree | insns/generate.py:519-551 | both models of a load give the same value for naturally aligned addresses |
| MemModel.StoresAgree | insns/generate.py:563-587 | both models of a store leave the same memory for naturally aligned addresses |
| MemModel.TrapsIffMisaligned | insns/generate.py:532-576 | the aligned model traps exactly on addresses that are not naturally aligned, the byte model never |
| MemModel.StoreThenLoad | insns/generate.py:519-587 | a load after a store of the same size returns the truncated, extended operand |
| MemModel.StoreElsewhere | insns/generate.py:563-587 | a load whose bytes lie outside a store is not affected by it |
| MemModel.LoadFootprint | insns/generate.py:519-551 | a load that does not trap claims to read exactly the bytes at its address, and writes nothing |
| MemModel.StoreFootprint | insns/generate.py:563-587 | a store that does not trap claims to write exactly the bytes at its address, and reads nothing |
| MemModel.LoadedNumber | insns/generate.py:519-551 | the value loaded is the little-endian number of the bytes, as it is or in two's complement |

## Left out

- Instruction checks inside the monitor: the `ch_errcode` registers are an input of the machine.
- Reorder buffer of depth 0 (plain wires) and 1 (an empty part-select in the emitted text), and depths that do not divide 2^64; the documented domain is powers of two.
- The data on output channels of the reorder buffer whose valid bit is low: such channels carry nothing in the model.
- Rob.ReorderBuffer.Clock: the buffer is a sequence of slots instead of a packed bit vector.
- MonitorRuns.ErrcodeMeaning: for monitors in which no 16-bit code comes out as zero, that is up to 7863 channels (Shadow.CodesVisibleIff).
- MonitorPrograms.Detection: for arrivals inside the window; outside it RobKept.AccountedIff says which packets are kept, not when they are released.
- MonitorCodes.Diagnosis: for up to 599 channels, and clocks in which no instruction check reports.
- RegTheorem.RegisterChecksMeaning: needs every reader's last retired write to be its latest; RegTheorem.AllRegChecksMeaning and RegTheorem.VerdictRightIff say what holds without that.
- Rewrite.RewriteFile: the lines and the replacement table are parameters; opening the file, printing and the construction of the table from the list of instructions are not modelled.
- RewriteLines.Blanks: blanks outside ASCII, which Python also knows, are not modelled.
- Initial values: `= 0` initialisers of checker registers are the constructor; the registers without a reset value are parameters.
- The read observer: the same FIFO and burst arithmetic without the join of two FIFOs and without guesses.
- Filtering by AXI ID, the instruction/data flags from AWPROT and the parameter checks of the write observer.
- AxiBurst.FixedBeats: also covers the reserved burst code, which the observer treats like FIXED and rejects by an assertion.
- AxiBurst.BeatsAsStandard: WRAP bursts are taken as the standard allows them (aligned start, 1, 2, 4, 8 or 16 transfers, window inside the address space).
- The abstract AXI managers at the end of bus/rvfi_bus_axi4.sv: their assumptions admit one outstanding burst only.
- InsnCheck.PassingCoreWritesAsSpecified: instructions that trap without a fault are not covered; the checker asserts nothing about their memory effect.
- InsnCheck.PassingLoad: the effective address is a parameter; its sum and the decoding of the instruction word are not modelled.
- CSR comparisons, memory faults reported by the core and cover statements of the instruction check; the lookups of physical memory attributes are parameters.
- MulHigh.MulhExact: the alternative operations under RISCV_FORMAL_ALTOPS are not modelled.
- Division and remainder, whose meaning rests on sign rules of mixed expressions; xperm4 and xperm8; the W forms of the counts.
- One-expression ALU instructions, the other CSR and bus checks, text emission, command lines, make and tool files.
