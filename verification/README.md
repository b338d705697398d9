# Formal model of the MPAC multi-core DSP simulator

This project models the parts of the MPAC simulator that carry its hard invariants, in
Dafny, and proves them for every input and every run. `dafny verify dfyconfig.toml` checks
everything.

| file | what it models |
|---|---|
| `Registers.dfy`, `WriteLog.dfy` | the register file of one core, the log entries that update it, and the ring of eight per-slot write logs |
| `Pipeline.dfy`, `Stages.dfy`, `Drain.dfy`, `Slots.dfy`, `Hazards.dfy`, `PreciseStop.dfy` | packets with early (EX1), mid (EX2) and late (EX3) writes, and the conflict check with its scalar repair; what free runs, stops and single steps leave, against in-order execution |
| `DspCore.dfy` | the same logs and files as a class whose methods update them in place |
| `Fetch.dfy` | instruction fetch, five branch delay slots, and the debugger's stop, step and resume |
| `Session.dfy` | fetch and register files together over whole debug sessions |
| `Arithmetic.dfy`, `StridedCopy.dfy`, `Padding.dfy` | 2-D DMA: gather/scatter loops and the eight border-padding variants |
| `IcacheDirect.dfy`, `IcacheWay.dfy` | the direct-mapped cache with its instruction buffer, and the set-associative cache |
| `Mailbox.dfy` | the core-to-core mailboxes and their arbitration back-off |
| `AddrGen.dfy`, `Packets.dfy`, `Lanes.dfy` | bit-reversed and circular addressing, the variable-length packet layout, saturating lanes and bit fields |

Code that the simulator runs by updating state is modelled twice: as a class or a method
that does the same steps, and as a function on values to which the method's `ensures` ties
the new state. The theorems are about those functions.

## How the pieces are read

* A slot's write log is EX1 in one cycle, EX2 in the next, EX3 in the one after, and is
  then committed. Within a cycle the stages append in the order EX3, EX2, EX1. Packets are
  fixed lists of writes; instruction semantics is not modelled.
* Results about the register file hold register by register. CR0 is packed from the
  predicates P1..P15, so that they decide it (`Decides`).
* `Architectural` leaves out CPP, which is logged behind CP, and the spare registers
  P16..P31 and R16..R31, which only a misplaced late copy ever names
  (`Drain.MisplacedIsSpare`). `Observable` also leaves out SR9 and SR10, which a stop
  overwrites with the PC and the branch target.
* A packet says what scalar slot 0 holds, because the conflict check of a late write
  repairs the EX2 log when the slots 0 of the packets in EX3 and WB are both late operations
  and the one in WB writes the same register (`Pipeline.Repairs`). A repair turns an entry
  into one for an accumulator that no packet need name. `NoExtra` says that no repair
  writes an accumulator; it holds of every other register (`Pipeline.OnlyAccumulators`).
* A free run keeps program order at a register exactly under `KeepsOrder`
  (`Hazards.RunIsInOrderIff`); a stop under `StopKeepsOrder`
  (`PreciseStop.StopIsPreciseIff`). Both look only at the last packet that writes the
  register and at its neighbours. At an accumulator that a repair may write, the exact
  condition is `SlotsKeepOrder`, which compares what the slots hold (`Slots.SlotsValue`, each
  slot from three packets) with what the packets mean.
* `StopKeepsOrder` looks into the EX2 log. At plain registers (not CP, not a predicate)
  without repairs it is `StagesKeepOrder`, which names the stage writes only
  (`PreciseStop.XExact`, `PreciseStop.PlainStopIff`).
* In `Session.dfy` a resume or a step loads the PC and the branch target from SR9 and SR10
  of the register file, where the stop or step before has saved them.
* `HazardFree` can be ensured by a compiler without knowing where a stop comes. With it at
  every register there are no repairs (`PreciseStop.HazardFreeUnrepaired`), and every run
  and stop keeps order (`PreciseStop.HazardFreeSuffices`).
* In `Fetch.dfy` the outcome of the k-th executed branch is a parameter, as are the
  addresses of packets. No packet lies at the all-ones address that marks bubbles. Sessions
  start from a reset or from a halted core whose PC has been set.
* Instruction memory is a function from addresses to bytes; the shared-memory request
  returns its bytes. The length of a line read is 256, as its only caller passes.
* In `Mailbox.dfy` hosts write transmit registers and RX_ACCEPT only, and name existing
  cores as destinations. Ticks of the four cores and host writes interleave freely.

## Where the code and its purpose differ

Each of these is kept as coded and stated exactly:

* A drained run keeps an EX3 write of one packet over an EX1 write of the next
  (`Hazards.HazardReorders`; exactly when order is lost, `Hazards.RunIsInOrderIff`).
* The scalar repair of the conflict check writes an accumulator that no packet names: two
  loads of R1, one behind the other, leave the first value in AC1, after a drain
  (`Hazards.RepairWritesAccumulator`) and at a stop (`PreciseStop.StopShowsRepair`). Exactly
  when an accumulator is right all the same is `Hazards.AccumulatorIff`.
* A single step loses late writes to predicate and scalar registers of clusters 3 and 4
  (`PreciseStop.StepsDropMisplaced`).
* A stop while the pipeline refills behind an earlier stop saves PC 0, and one before the
  first fetch after a reset saves the bubble's PC (`Fetch.StopResumesIff`; a session in which
  the wrong packet is executed, `Fetch.StopInRefillFails`).
* A direct-mapped miss that starts in the second line of a window tags the first line with
  the second line's tag, which matters when the window crosses a 32 KB boundary
  (`IcacheDirect.RefillCoherent`, `IcacheDirect.Cache.L1Read`; three reads after which the
  wrong bytes are returned, `IcacheDirect.ReadStale`).
* A buffer emptied by a flush answers requests below address 256 with zeroes
  (`InstructionMemory.FlushHidesMemory`; exactly when a run is answered from memory,
  `InstructionMemory.AnswersAreMemory`).
* A mailbox timeout leaves the cancel flag set, so the next arming is lost
  (`Mailbox.TimeoutSwallowsNextArm`); the low receive-status bit is never set
  (`Mailbox.LowStatusBitNeverSet`).
* Circular addressing compares the whole register with 16-bit bounds, so that a register
  above the first 64 KB leaves its window (`AddrGen.CircularAbove`).
* A transfer that ends exactly at the end of its memory is refused
  (`StridedCopy.AddrValidIs`).
* A seven-byte tail spills into the next slot's header (`Packets.LongTailSpills`). Exactly
  when the decoded packet is nevertheless right is `Packets.RoundTrip`; a packet that is
  decoded wrongly is in `Packets.SpillDecodes`.
* 32-bit `subs` does not saturate 0 - (-2^31) (`Lanes.Subs`).
* The x0y1 zone copy stores in the WRITE direction only if the gather bit is set
  (`StridedCopy.Memory.ZoneWrite`).

## Model

| member | source | states |
|---|---|---|
| Registers.ApplyAt | mpac_mproc/pac-iss/pac-exec.cpp:770-826 | applying a log leaves in each register the value of the last entry that touches it (an entry for CR0 touches P1..P15), and leaves the others alone |
| Registers.CleanAbsorbs | mpac_mproc/pac-iss/pac-exec.cpp:793-826 | the clean-up of P0, CR0 and the narrow registers between two commits cannot be observed after the next one |
| Registers.Cr0Bits | mpac_mproc/pac-iss/pac-exec.cpp:832-840 | with 0 or 1 in every predicate, bit i of CR0 after a clean-up is P[i] for 1 <= i < 16, bit 0 and P[0] are 1, and no higher bit is set |
| Registers.Cr0RoundTrip | mpac_mproc/pac-iss/pac-exec.cpp:770-791 | an entry for CR0 with value w, cleaned up, leaves its low sixteen bits with bit 0 set in CR0, and bit i of w in P[i] |
| Registers.NarrowRegisters | mpac_mproc/pac-iss/pac-exec.cpp:841-865 | AMCR keeps 16 bits, CP keeps 7, the load/store status words lose bits 5 and 6, and no other register but P0 and CR0 is touched |
| WriteLog.RingRefines | mpac_mproc/pac-iss/pac-exec.cpp:793-826 | after any run from empty logs: WB's position, the exact contents of every log (five of the eight empty), the forwarded file and the committed file, as functions of the appends |
| Pipeline.CopiesAgreeIff | mpac_mproc/pac-iss/pac-exec.cpp:213-302 | the late copies of a write name the register that was forwarded if and only if it is not a predicate or scalar write from clusters 3 and 4 |
| Pipeline.NamesRegister | mpac_mproc/pac-iss/pac-exec.cpp:68-90 | the register that a write of each cluster names, and the status bank of each cluster |
| Pipeline.SameRegister | mpac_mproc/pac-iss/pac-exec.cpp:195-245 | two writes name the same register exactly if type and number agree and they come from the same side or the register is shared, and two status writes exactly if bank and bit agree |
| Pipeline.ConflictIs | mpac_mproc/pac-iss/pac-exec.cpp:304-320 | but for CP the conflict check answers yes if and only if some entry of the EX2 log is for the very register of the write, whichever cluster it comes from |
| Pipeline.ConflictOfCp | mpac_mproc/pac-iss/pac-exec.cpp:321-357 | for CP it answers yes if and only if there is any entry and an operand of the instruction in EX2 names the register |
| Pipeline.RepairMoves | mpac_mproc/pac-iss/pac-exec.cpp:362-398 | the repair turns the first entry for the register into one for the accumulator of the same number, with its data, leaves all others, and answers yes exactly if one for the register is left |
| Pipeline.NothingRepaired | mpac_mproc/pac-iss/pac-exec.cpp:362-380 | unless slot 0 in EX3 is a late operation and slot 0 in WB one that executes and writes the same register, every entry of the EX2 log stays, and after a conflict nothing is added |
| Stages.MidMirrors | mpac_mproc/pac-iss/pac-exec.cpp:279-302 | whatever the EX2 copies write to CP they write to CPP |
| Stages.Late3Once | mpac_mproc/pac-iss/pac-exec.cpp:246-277 | the EX3 copies of CP reach CPP only if nothing in their slot has, and then the first of them counts |
| Drain.ForwardedIsCommitted | mpac_mproc/pac-iss/pac-exec.cpp:213-302 | for any run whose late copies of r are forwarded with them, the last forwarded write to r is its last write over all slots in commit order |
| Drain.DrainedFilesAgree | mpac_mproc/pac-iss/pac-exec.cpp:793-826 | three cycles without writes make the committed register equal the forwarded one, with no hazard hypothesis |
| Drain.CommitLagsByThree | mpac_mproc/pac-iss/pac-dsp.cpp:297-320 | with EX1 writers only, the committed file is the forwarded file of three cycles earlier |
| Drain.PacketsDrain | mpac_mproc/pac-iss/pac-dsp.cpp:212-323 | any packets, hazards, conflicts and misplaced late writes included: five cycles after the last one enters EX1 both files agree at every register that is neither spare nor an accumulator that a repair writes |
| Slots.SlotLast | mpac_mproc/pac-iss/pac-exec.cpp:246-402 | the last write to a register in any closed slot of a run or a stop, from the stage writes of three packets, the conflict checks and their repairs included |
| Slots.SlotsValueIs | mpac_mproc/pac-iss/pac-exec.cpp:246-402 | of all the slots before a given one, what they leave in a register that no repair writes is decided by the last packet that writes it, the one before it and the number of slots behind it |
| Slots.ChecksKeep | mpac_mproc/pac-iss/pac-exec.cpp:304-402 | the checks and repairs of one cycle never take away the last write to a register without leaving another write to it |
| PreciseStop.StopIsPreciseIff | mpac_mproc/pac-iss/pac-dsp.cpp:242-266 | a stop after n cycles, hazards, conflicts and repairs included, shows at a register the in-order result of the packets up to the one in EX3 if and only if the stage writes of the last of them that writes it keep order with those of its neighbours; at an accumulator that a repair may write, if and only if the committed slots leave what is meant |
| PreciseStop.XExact | mpac_mproc/pac-iss/pac-exec.cpp:304-402 | the EX2 log of a cycle holds for r the newest of the writes forwarded in the cycle before, and the late write of the packet in EX3 only without any |
| PreciseStop.PlainStopIff | mpac_mproc/pac-iss/pac-dsp.cpp:242-266 | so at a plain register without repairs a stop is in order if and only if the EX1, EX2 and EX3 writes of two packets are |
| PreciseStop.StopSaves | mpac_mproc/pac-iss/pac-dsp.cpp:383-392 | after a stop SR9 holds the PC and SR10 the branch target, both files are equal, every log is empty and WB is at its start |
| PreciseStop.StepSaves | mpac_mproc/pac-iss/pac-dsp.cpp:88-181 | and so after a step |
| PreciseStop.SyncIs | mpac_mproc/pac-iss/pac-dsp.cpp:405-410 | before a run or a step each CPP becomes a copy of its CP, and nothing else changes |
| PreciseStop.StopIsSlots | mpac_mproc/pac-iss/pac-dsp.cpp:242-266 | what a stop leaves in a register is what the slots up to the one in EX3 leave, each given by the packets alone |
| PreciseStop.StopIsInOrder | mpac_mproc/pac-iss/pac-dsp.cpp:242-266 | a stop shows the in-order result, CR0 by its predicates, wherever the stage writes keep order and no repair writes |
| PreciseStop.StopShowsRepair | mpac_mproc/pac-iss/pac-exec.cpp:362-398 | a stop behind two loads of R1 shows the second value in R1 and the first one in AC1, which neither load names |
| PreciseStop.StopIsPrecise | mpac_mproc/pac-iss/pac-dsp.cpp:242-266 | a breakpoint or stop after n cycles shows, at every observable register without hazards and repairs, the in-order result of the packets up to the one in EX3 and nothing of those in EX2 and EX1 |
| PreciseStop.HazardFreeSuffices | mpac_mproc/pac-iss/pac-dsp.cpp:212-323 | a register without hazards and repairs keeps order in the drained run and at every stop |
| PreciseStop.HazardFreeUnrepaired | mpac_mproc/pac-iss/pac-exec.cpp:362-398 | packets without hazards at any register never get a repair, given that late operations of slot 0 write R or CR (sc-pac-if-direct.cpp:213-218) and that no other slot writes CR |
| PreciseStop.HazardFreeStops | mpac_mproc/pac-iss/pac-dsp.cpp:212-323 | so every stop of such packets is precise at every register whose late writes are well placed |
| PreciseStop.StepsDropMisplaced | mpac_mproc/pac-iss/pac-dsp.cpp:88-181 | single steps execute in order, with no hazard hypothesis, the packets without their misplaced late writes |
| PreciseStop.StepsInOrder | mpac_mproc/pac-iss/pac-dsp.cpp:88-181 | single steps execute in order at every register whose late writes are well placed |
| PreciseStop.StepEqualsRun | mpac_mproc/pac-iss/pac-dsp.cpp:88-181 | stepping every packet and running then draining end in the same committed register, wherever the packets keep order and no repair writes |
| PreciseStop.StepEqualsRunIff | mpac_mproc/pac-iss/pac-dsp.cpp:88-181 | with well-placed late writes they agree at a register if and only if the packets keep order there, or, at an accumulator that a repair may write, the slots leave what is meant |
| Session.SessionInOrder | mpac_mproc/pac-iss/pac-dsp.cpp:212-418 | after any sequence of resumes, cycles, stops and single steps from a reset or a set PC, whenever the core is halted, a register that stops precisely holds the in-order result of the packets executed so far, which are a prefix of the delayed-branch trace; SR9 holds the address of the next packet of that trace, and SR10 the branch target while delay slots remain; the bubbles of refills and taken branches included |
| Session.LoadsBack | mpac_mproc/pac-iss/pac-dsp.cpp:405-418 | a resume or a step, which loads PC and branch target from SR9 and SR10, finds what the stop or step before has saved, so that the delay-slot state is kept |
| Session.EditedPc | mpac_mproc/pac-iss/pac-dsp.cpp:405-418 | a different PC written into SR9 of a halted core is where it goes on, outside delay slots |
| Session.FilledInOrder | mpac_mproc/pac-iss/pac-dsp.cpp:212-323 | bubbles between packets do not change the in-order result |
| Session.FilledClear | mpac_mproc/pac-iss/pac-dsp.cpp:212-323 | bubbles between packets bring no hazard and no repair |
| Session.EntersIs | mpac_mproc/pac-iss/sc-pac-if-direct.cpp:1617-1675 | the packet that the exec table hands to EX1 is the next one of the trace behind the one in EX2 |
| Hazards.RunIsTimeOrder | mpac_mproc/pac-iss/pac-exec.cpp:246-402 | with no hypothesis on the packets, a drained run leaves in the forwarded file what the writes leave in the order in which their stages are reached, and in the committed file too unless a repair writes the register |
| Hazards.PointersFollow | mpac_mproc/pac-iss/pac-exec.cpp:195-245 | throughout every run the forwarded CPP follows CP, up to the width of CP |
| Hazards.TimeOrderLast | mpac_mproc/pac-iss/pac-exec.cpp:246-402 | of that order, the last packet that writes a register decides, but for an EX3 write of the packet before it over an EX1 write |
| Hazards.RunIsInOrderIff | mpac_mproc/pac-iss/pac-dsp.cpp:212-323 | the forwarded file of a drained run holds the in-order result at a register if and only if it is not so that its last writer writes it in EX1 only and the packet before writes another value in EX3; the committed file too unless a repair writes the register |
| Hazards.RunIsInOrder | mpac_mproc/pac-iss/pac-dsp.cpp:212-323 | a drained run ends in the in-order result in both files wherever the packets keep order and no repair writes, CR0 by its predicates |
| Hazards.RunIsInOrderEverywhereIff | mpac_mproc/pac-iss/pac-dsp.cpp:212-323 | the whole architectural committed file is in order if and only if the packets keep order at every register, and at the accumulators that repairs may write the slots leave what is meant |
| Hazards.AccumulatorIff | mpac_mproc/pac-iss/pac-exec.cpp:362-398 | after a drain an accumulator is in order if and only if the slots, with the entries that repairs moved into it, leave what the packets mean; both files agree there if and only if the slots leave what was forwarded |
| Hazards.DrainedSlots | mpac_mproc/pac-iss/pac-exec.cpp:246-402 | whatever the repairs do, the committed register of a drained run is what its slots leave, each given by the packets alone |
| Hazards.HazardReorders | mpac_mproc/pac-iss/pac-exec.cpp:304-402 | a late write followed by an early write of the next packet keeps the older value |
| Hazards.RepairWritesAccumulator | mpac_mproc/pac-iss/pac-exec.cpp:362-398 | two loads of R1: the drained run has the second value in R1, and the first one in AC1 of the committed file only |
| DspCore.WriteEntries | mpac_mproc/pac-iss/pac-exec.cpp:793-826 | the in-place loop over a log has the effect of `Apply` |
| DspCore.CleanFile | mpac_mproc/pac-iss/pac-exec.cpp:793-826 | the in-place clean-up has the effect of `Clean` |
| DspCore.Core.WriteConflictCheck | mpac_mproc/pac-iss/pac-exec.cpp:304-402 | the answer and the logs after the check, for every register type; with the scalar repair the first entry for the register becomes an accumulator entry and another one decides |
| DspCore.Core.LateWrite | mpac_mproc/pac-iss/sc-pac-ex3.cpp:6-26 | a late result is forwarded, copied to the EX2 log unless the check, with or without its repair, reports a conflict, and copied to its own log |
| DspCore.Core.LateWrites | mpac_mproc/pac-iss/pac-exec.cpp:362-398 | the EX3 stage: all late results, each check repairing exactly when slot 0 of the packet in EX3 is a late operation and that of the packet in WB writes the same register |
| DspCore.Core.RunCycle | mpac_mproc/pac-iss/pac-dsp.cpp:234-320 | one turn of the run loop is one tick of the ring with what the packets in EX3, EX2 and EX1 do to the logs, repairs against the packet in WB included |
| DspCore.Core.RunCycles | mpac_mproc/pac-iss/pac-dsp.cpp:212-323 | the loop over n cycles is the run of the ring over the history of the packets |
| DspCore.Core.StopCore | mpac_mproc/pac-iss/pac-dsp.cpp:242-266 | the stop path: EX3 with its repairs, two commits, then saved PC and target, equal files and empty logs |
| DspCore.Core.StepCore | mpac_mproc/pac-iss/pac-dsp.cpp:88-181 | the step path, with WB moving so that the packet's stages meet in one log |
| DspCore.Core.RunThenStop | mpac_mproc/pac-iss/pac-dsp.cpp:212-323 | on the in-place core: running n cycles and stopping leaves the in-order result in every register that stops precisely |
| Fetch.RefillCycle | mpac_mproc/pac-iss/sc-pac-if-direct.cpp:1617-1675 | while EX2 holds nothing to execute, one cycle takes in exactly the next entry of the instruction stream, in every state of the delay-slot counter |
| Fetch.ExecuteCycle | mpac_mproc/pac-iss/sc-pac-ex2.cpp:848-905 | a cycle with a packet in EX2 executes the reference machine's next packet, a branch linking the packet after its five slots |
| Fetch.StopResumesIff | mpac_mproc/pac-iss/pac-dsp.cpp:242-257 | a stop resumes at the right packet and slot if and only if EX2, EX1 or the first table entry, in the order in which they are asked, holds a packet, or the saved PC 0 is that packet with no bubble pending |
| Fetch.FirstFillLands | mpac_mproc/pac-iss/pac-dsp.cpp:55-86 | after a reset every stop from the first fetch on finds its packet, in the first refill through the first table entry |
| Fetch.StopInRefillFails | mpac_mproc/pac-iss/pac-dsp.cpp:242-257 | a session from a reset whose second stop comes in a refill executes the packet at address 0 |
| Fetch.StepIs | mpac_mproc/pac-iss/pac-dsp.cpp:88-162 | a single step, in or out of delay slots, executes the next packet and links the same address as a run |
| Fetch.DebugIsTransparent | mpac_mproc/pac-iss/pac-dsp.cpp:383-418 | for every sequence of resumes, cycles, stops and steps the executed packets and link addresses are a prefix of the uninterrupted delayed-branch trace |
| Fetch.SessionIsTransparent | mpac_mproc/pac-iss/pac-dsp.cpp:55-86 | the same from the state after a reset, and from a halted core whose PC has been set |
| Fetch.RunningExecutes | mpac_mproc/pac-iss/sc-pac-if-direct.cpp:1617-1675 | after at most six cycles of refill the next packet is executed |
| Fetch.FetchUnit.FetchNext | mpac_mproc/pac-iss/sc-pac-if-direct.cpp:1617-1675 | the fetch step on the in-place state |
| Fetch.FetchUnit.RunCycle | mpac_mproc/pac-iss/sc-pac-ex2.cpp:848-905 | a cycle on the in-place state: EX2, then fetch |
| Fetch.FetchUnit.Stop | mpac_mproc/pac-iss/pac-dsp.cpp:341-403 | a stop on the in-place state |
| Fetch.FetchUnit.SingleStep | mpac_mproc/pac-iss/pac-dsp.cpp:88-162 | a single step on the in-place state |
| Fetch.FetchUnit.Perform | mpac_mproc/pac-iss/pac-dsp.cpp:212-323 | any sequence of resumes, cycles, stops and steps on the in-place state |
| StridedCopy.WrapReaches | mpac_mproc/pac-soc/m1.cpp:152-190 | the incremental pointer with its wrap test is at base + (i/x)*res + i%x for byte i |
| StridedCopy.Move | mpac_mproc/pac-soc/m1.cpp:152-233 | the copy loop moves byte i from and to the closed-form addresses |
| StridedCopy.InjectiveIff | mpac_mproc/pac-soc/m1.cpp:152-233 | the addresses of a transfer are distinct if and only if the stride separates the rows or there is one row |
| StridedCopy.MovedBytes | mpac_mproc/pac-soc/m1.cpp:152-233 | with separated rows every byte arrives at its address, and nothing else changes |
| StridedCopy.ScatterThenGather | mpac_mproc/pac-soc/ddr-memory.cpp:105-222 | scattering a block and gathering it with the same shape restores it, from any place in one buffer to any place in another |
| StridedCopy.WriteThenRead | mpac_mproc/pac-soc/m1.cpp:106-233 | the same through every control word that scatters a write and gathers a read: 0x100 and 0x80 for the system controller, 0x200 and 0x100 for the other and for all padding variants, 0x20 and 0x10 for both |
| StridedCopy.SingleBits | mpac_mproc/pac-soc/m1.cpp:152-233 | of the 32 bits of the control word, which one turns which side of a copy into rows, for each controller and copy; no other bit has a say |
| StridedCopy.BitsAdd | mpac_mproc/pac-soc/m1.cpp:152-233 | a control word does what its bits do |
| StridedCopy.AddrValidIs | mpac_mproc/pac-soc/pac-m1-bus.h:59-67 | without wrap-around a valid transfer lies inside the memory, and one that lies inside is valid unless it ends exactly at its end |
| StridedCopy.Memory.ZoneRead | mpac_mproc/pac-soc/m1.cpp:235-976 | a READ zone copy for every variant, and no change for an invalid address |
| StridedCopy.Memory.ZoneWrite | mpac_mproc/pac-soc/m1.cpp:827-884 | a WRITE zone copy, with the x0y1 variant storing only when it gathers |
| Padding.CopyRows | mpac_mproc/pac-soc/m1.cpp:978-985 | rows of bytes copied with both pointers moving by the stride move exactly one rectangle |
| Padding.PadTop | mpac_mproc/pac-soc/m1.cpp:1127-1198 | the rows above repeat the body's first rows, reduced modulo the unit from the edge |
| Padding.PadBottom | mpac_mproc/pac-soc/m1.cpp:1200-1261 | the rows below repeat the body's last rows |
| Padding.PadLeft | mpac_mproc/pac-soc/m1.cpp:989-1057 | the columns on the left repeat the body's first columns |
| Padding.PadRight | mpac_mproc/pac-soc/m1.cpp:1061-1124 | the columns on the right repeat the body's last columns |
| Padding.Corner | mpac_mproc/pac-soc/m1.cpp:1263-1764 | rows first, then columns of the added and of the body rows, is the two-dimensional periodic extension, corners included |
| Padding.PadBorders | mpac_mproc/pac-soc/m1.cpp:1766-1809 | whichever of the eight variants is chosen, the buffer becomes the periodic extension of the body and nothing else changes |
| Padding.PaddedByte | mpac_mproc/pac-soc/m1.cpp:989-1764 | every byte of the padded frame is the memory byte that periodic extension names |
| Padding.Periodic | mpac_mproc/pac-soc/m1.cpp:989-1261 | the extension is periodic: the body stays, and a row or column beyond its padded edge is the one a unit nearer to it |
| Padding.PaddedRead | mpac_mproc/pac-soc/m1.cpp:8-46 | a padded READ transfer, from memory to the last border byte, and no byte outside the frame changes |
| IcacheDirect.RefillCoherent | mpac_mproc/pac-iss/sc-pac-if-direct.cpp:61-85 | a refill keeps the cache in agreement with memory if and only if the tag stored on the first line is its own or the two lines named are equal |
| IcacheDirect.Cache.L1Read | mpac_mproc/pac-iss/sc-pac-if-direct.cpp:19-97 | the bytes are memory's, there is exactly one rendezvous, and the exact condition under which the cache still agrees with memory |
| IcacheDirect.Cache.IcacheRead | mpac_mproc/pac-iss/sc-pac-if-direct.cpp:99-121 | the read through the instruction buffer: the exact answer, buffer, tables and agreement with memory |
| IcacheDirect.Cache.IcacheWrite | mpac_mproc/pac-iss/sc-pac-if-direct.cpp:123-155 | after a flush the cache agrees with any memory |
| IcacheDirect.Serve | mpac_mproc/pac-iss/sc-pac-if-direct.cpp:19-155 | every run of reads and flushes in which no read stores a line under a tag that names a different one is answered through the buffer from memory, one rendezvous per read |
| IcacheDirect.HarmlessReads | mpac_mproc/pac-iss/sc-pac-if-direct.cpp:61-85 | a run in which no read starts inside the last line of a 32 KB block never stores a line under a wrong tag |
| IcacheDirect.ReadStale | mpac_mproc/pac-iss/sc-pac-if-direct.cpp:61-88 | two reads, the second over a 32 KB boundary, after which a third returns the bytes of another line |
| InstructionMemory.AnswersAreMemory | mpac_mproc/pac-iss/sc-pac-if-direct.cpp:99-155 | the answers of a run of reads and flushes are memory's bytes if and only if every read that hits an emptied buffer asks for a window of zeroes |
| InstructionMemory.HighReadsAreMemory | mpac_mproc/pac-iss/sc-pac-if-direct.cpp:99-155 | they are if every read ends at address 256 or above, whatever the flushes |
| InstructionMemory.FlushHidesMemory | mpac_mproc/pac-iss/sc-pac-if-direct.cpp:99-155 | a flush and then a read of 72 bytes at address 0: zeroes, whatever memory holds |
| InstructionMemory.HitIs | mpac_mproc/pac-iss/sc-pac-if-direct.cpp:109-114 | a request is served from the buffer exactly if its bytes and the one behind them lie in the buffer |
| IcacheWay.FieldsIdentify | mpac_mproc/pac-iss/sc-pac-memif-def-way.h:6-51 | tag, line and group fields identify a line for two, four and eight ways, and neighbouring lines lie in different groups |
| IcacheWay.FillOk | mpac_mproc/pac-iss/sc-pac-if-way.cpp:118-150 | storing an absent line in any way keeps every way equal to its memory line and no line in two ways |
| IcacheWay.Cache.Victim | mpac_mproc/pac-iss/sc-pac-if-way.cpp:119-133 | the replacement scan chooses a way of greatest age |
| IcacheWay.Cache.Place | mpac_mproc/pac-iss/sc-pac-if-way.cpp:104-155 | one line of a request, if absent, replaces a way of greatest age, becomes young, and the other ways age by one in 7 bits; the copy comes from the recorded block, right or wrong |
| IcacheWay.Cache.Probe | mpac_mproc/pac-iss/sc-pac-if-way.cpp:38-76 | a hit makes its way young and, on the first byte of a line that is not yet marked as hit, ages the others of the group by one; a miss changes nothing |
| IcacheWay.YoungStays | mpac_mproc/pac-iss/sc-pac-if-way.cpp:119-133 | a line just read is not the next to be replaced while another way of its group has aged |
| IcacheWay.AgingKeepsOrder | mpac_mproc/pac-iss/sc-pac-if-way.cpp:137-143 | below the wrap at 127 ageing keeps the order of the other ways and puts the used way behind them; at the wrap the oldest way becomes young |
| IcacheWay.Cache.L1Read | mpac_mproc/pac-iss/sc-pac-if-way.cpp:17-245 | from every state in agreement with memory a read returns the 256 memory bytes, with one rendezvous, keeps the agreement, and leaves the lines that it read in the cache and young |
| IcacheWay.Cache.IcacheWrite | mpac_mproc/pac-iss/sc-pac-if-way.cpp:270-288 | after a flush the cache agrees with any memory |
| IcacheWay.Cache.IcacheRead | mpac_mproc/pac-iss/sc-pac-if-way.cpp:248-268 | the read through the instruction buffer, with the exact answer of an emptied one |
| IcacheWay.Serve | mpac_mproc/pac-iss/sc-pac-if-way.cpp:17-303 | every run of reads and flushes is answered through the buffer from memory, one rendezvous per read |
| Mailbox.StepReceives | mpac_mproc/pac-soc/c2cc-wrap.h:212-247 | a core's busy flag and receive registers change only by a delivery to it or its own accept |
| Mailbox.DeliveredWords | mpac_mproc/pac-soc/c2cc-wrap.h:135-152 | a delivery copies each of the four message words of the sender to the same word of the receiver, sets its SOURCE_ID to the sender and its busy flag, and clears the send status; the sender keeps its message |
| Mailbox.RefusedSend | mpac_mproc/pac-soc/c2cc-wrap.h:212-223 | a send to a busy core changes nothing but the send status |
| Mailbox.BusyIs | mpac_mproc/pac-soc/c2cc-wrap.h:219 | a core is busy exactly while bit 1 of its receive status is set |
| Mailbox.DestField | mpac_mproc/pac-soc/c2cc-wrap.h:137 | the destination is bits 16 to 19 of TX_CTRL, whatever the others hold |
| Mailbox.TimeoutField | mpac_mproc/pac-soc/c2cc-wrap.h:192-193 | the timeout is 20 times bits 8 to 15 times bits 0 to 3 of TX_TIMEOUT |
| Mailbox.HostEffects | mpac_mproc/pac-soc/c2cc-wrap.h:188-200 | a host write changes its register; TX_TIMEOUT alone loads the timeout; a cancel flag is used up with the send status |
| Mailbox.MailboxSafe | mpac_mproc/pac-soc/c2cc-wrap.h:112-247 | over every run: the receive registers hold, word by word, what the sender of the last delivery had in its message registers at that event, and SOURCE_ID names it; deliveries equal accepts plus one while busy |
| Mailbox.ExactlyOnce | mpac_mproc/pac-soc/c2cc-wrap.h:120-208 | over every run: armings and endings (sent, timed out, cancelled, host-cleared) alternate, and the trigger is set exactly while the last arming is pending |
| Mailbox.SentIsDelivered | mpac_mproc/pac-soc/pac-c2cc-bus.h:66-80 | a delivery to a core is exactly the ending by sending of an arming addressed to it |
| Mailbox.TimeoutSwallowsNextArm | mpac_mproc/pac-soc/c2cc-wrap.h:124-133 | after a timeout the next write of the send trigger does not arm it |
| Mailbox.TimeoutFires | mpac_mproc/pac-soc/c2cc-wrap.h:124-133 | over every run: a timeout of t ends the send at the t-th tick of its core and not before, with the status and cancel bits set |
| Mailbox.BackOffDelays | mpac_mproc/pac-soc/c2cc-wrap.h:135-157 | over every run: a back-off of t keeps an armed core from sending for exactly t of its ticks |
| Mailbox.LowStatusBitNeverSet | mpac_mproc/pac-soc/c2cc-wrap.h:230-233 | the test guarding the low receive-status bit cannot hold |
| Mailbox.TurnTaking | mpac_mproc/pac-soc/c2cc-wrap.h:135-155 | after an accept, the next delivery is not from the same sender if another one waits throughout and the first has not got more than four ticks ahead |
| Mailbox.TurnTakingInLockStep | mpac_mproc/pac-soc/c2cc-wrap.h:201-203 | the same for any order of ticks within each clock |
| Mailbox.Wrappers.TxThread | mpac_mproc/pac-soc/c2cc-wrap.h:112-158 | the clocked send process on the in-place registers |
| Mailbox.Wrappers.WriteRegister | mpac_mproc/pac-soc/c2cc-wrap.h:161-210 | a host write on the in-place registers |
| Mailbox.Wrappers.Accept | mpac_mproc/pac-soc/c2cc-wrap.h:212-247 | the receiving side, refusing while busy |
| AddrGen.BitReverse | mpac_mproc/pac-iss/pac-exec.cpp:632-642 | the bit loop computes the reversal |
| AddrGen.RevTwice | mpac_mproc/pac-iss/pac-exec.cpp:632-642 | reversal undoes itself |
| AddrGen.ReversedAddrIs | mpac_mproc/pac-iss/pac-exec.cpp:680-694 | the i-th address counts in reversed order in the low half and keeps the high half |
| AddrGen.ReversedBlock | mpac_mproc/pac-iss/pac-exec.cpp:680-694 | with step 2^(k-1) and a 2^k-aligned start, address i is the start plus the k-bit reversal of i |
| AddrGen.ReversedBlockIsPermutation | mpac_mproc/pac-iss/pac-exec.cpp:680-694 | those addresses are a permutation of the block |
| AddrGen.CircularStaysIff | mpac_mproc/pac-iss/pac-exec.cpp:695-718 | every address of the window steps into the window if and only if the offset is no larger than the window |
| AddrGen.CircularAddrIs | mpac_mproc/pac-iss/pac-exec.cpp:695-718 | the i-th address is base + ((a0 - base + i*offset) mod (end - base)), for both signs |
| AddrGen.CircularAbove | mpac_mproc/pac-iss/pac-exec.cpp:695-718 | the high half of the register stays; above the first 64 KB a step up wraps even inside the window, and a step down never does |
| AddrGen.LsAddrGen | mpac_mproc/pac-iss/pac-exec.cpp:644-724 | the access uses the register as it is and the register moves on, in both modes |
| Packets.PrefixCode | mpac_mproc/pac-iss/sc-pac-if-direct.cpp:158-202 | every header matches exactly one of fourteen prefixes, and the length chain and the class chain agree |
| Packets.ClassMatches | mpac_mproc/pac-iss/sc-pac-if-direct.cpp:1424-1455 | the chain of class tests selects the one class whose prefix matches, so its order does not matter |
| Packets.RoundTrip | mpac_mproc/pac-iss/sc-pac-if-direct.cpp:1461-1603 | for every choice of slots, instructions and broadcast bits, decoding a laid-out packet gives each slot its bytes and the packet its length if and only if no seven-byte tail does harm: into slots 1 and 2, into slots 3 and 4 unless a copy overwrites them, and through the length it gives an overwritten slot 3 |
| Packets.RecoveredPlain | mpac_mproc/pac-iss/sc-pac-if-direct.cpp:1541-1599 | without the load/store broadcast that condition is that no tail spills a different byte into a slot that is not overwritten; tails of six bytes or less always meet it |
| Packets.SpillDecodes | mpac_mproc/pac-iss/sc-pac-if-direct.cpp:1541-1599 | a packet of one scalar instruction whose seventh tail byte turns up in the empty slot behind it |
| Packets.LongTailSpills | mpac_mproc/pac-iss/sc-pac-if-direct.cpp:1541-1594 | a seven-byte tail overwrites the first header byte of the next slot |
| Packets.OneInstruction | mpac_mproc/pac-iss/sc-pac-if-direct.cpp:1461-1603 | a packet of one scalar instruction decodes to its header, tail and zeroes |
| Packets.ShortTailStays | mpac_mproc/pac-iss/sc-pac-if-direct.cpp:1541-1594 | a tail of six bytes or less leaves the other slots alone |
| Packets.DecodePacket | mpac_mproc/pac-iss/sc-pac-if-direct.cpp:1461-1603 | the decoder that fills the five slots in place |
| Packets.SpecialCaps | mpac_mproc/pac-iss/sc-pac-if-direct.cpp:1489-1525 | in the bytes of the cap: which packets trap, which are breakpoints, which are control packets and with what function, and the length of the others |
| Packets.CapRead | mpac_mproc/pac-iss/pac-dsp-def.h:300-323 | in the cap of a laid-out packet: bits 1 to 5 are the slots present, 6 and 7 the broadcasts, the upper six the length |
| Packets.BodyIs | mpac_mproc/pac-iss/sc-pac-if-direct.cpp:1527-1594 | the layout: the headers of the slots present, in slot order, and then their tails |
| Lanes.Adds | mpac_mproc/pac-iss/sc-pac-ex1.cpp:1327-1367 | 32-bit signed saturating add is the exact sum clamped |
| Lanes.Addcs | mpac_mproc/pac-iss/sc-pac-ex1.cpp:2582-2628 | the same with carry |
| Lanes.Subs | mpac_mproc/pac-iss/sc-pac-ex1.cpp:1960-2000 | 32-bit signed saturating subtract is a clamp if and only if it is not 0 - (-2^31) |
| Lanes.Addds | mpac_mproc/pac-iss/sc-pac-ex1.cpp:1512-1548 | two 16-bit signed lanes, clamped, with no cross-lane effect |
| Lanes.Addqs | mpac_mproc/pac-iss/sc-pac-ex1.cpp:1550-1614 | four 8-bit signed lanes |
| Lanes.Subds | mpac_mproc/pac-iss/sc-pac-ex1.cpp:2094-2139 | two 16-bit signed subtractions, overflow inferred from wrapped signs |
| Lanes.Subuds | mpac_mproc/pac-iss/sc-pac-ex1.cpp:2339-2361 | two 16-bit unsigned subtractions, clamped at zero |
| Lanes.Subuqs | mpac_mproc/pac-iss/sc-pac-ex1.cpp:2363-2395 | four 8-bit unsigned subtractions, clamped at zero |
| Lanes.InsertThenExtract | mpac_mproc/pac-iss/sc-pac-ex1.cpp:3162-3218 | extract after insert returns the low bits of the source; bits outside the field stay |
| Lanes.ExtractThenInsert | mpac_mproc/pac-iss/sc-pac-ex1.cpp:3162-3218 | inserting an extracted field back changes nothing |
| Lanes.MaskIs | mpac_mproc/pac-iss/pac-exec-def.h:21-23 | the 64-bit mask macro covers exactly the bits between its bounds |

## Left out

- PreciseStop.StopIsPreciseIff: for a register that a cluster 3 or 4 writes late as a predicate or scalar register, whose copies go elsewhere (`Pipeline.CopiesAgreeIff`), only the drained run is characterised.
- Pipeline.Step: CP is copied over CPP as the code does; the CPP pre-update of address instructions is not modelled.
- Status-word loads in EX3 (`psr_write_stage3`), which have no forwarded copy, and the broadcast and exchange registers.
- The capacity of a write log (32 entries) and the bump allocator behind breakpoints.
- The watchpoint path, which commits the youngest slot first.
- TRAP and its countdown, interrupts, and semihosting.
- Session.SessionInOrder: the data of a packet's writes is given per address and position in the trace; reading registers is not modelled.
- Fetch.DebugIsTransparent: assumes no branch inside a delay slot, stops that find a packet (`Fetch.StopResumesIff` says what the others do), and no PC edit by the debugger inside a session (`Session.EditedPc` says where such an edit leads).
- The TLM and SystemC kernel: sockets, delta cycles and clocks are replaced by the order within a cycle or by interleaving.
- Padding.PadBorders: units larger than the body and rows wider than the stride, where the code copies bytes that are not the body's.
- The unchecked array bounds of the DMA loops: addresses inside memory and buffer are required.
- DMA over the second-level memories and the FIFO mode; `ddr-memory.cpp` has the same copies as `m1.cpp` and is covered by the same model.
- IcacheWay.Cache.L1Read: least-recently-used order over a whole run is not claimed, because the ages wrap in 7 bits (`IcacheWay.AgingKeepsOrder`) and one path does not update them.
- IcacheDirect.Cache.L1Read: windows whose second line wraps around the top of the 32-bit address space, where the contents of the request are not defined by the code; likewise for the set-associative cache.
- Mailbox: host reads, writes to the receive registers, and destinations beyond the four cores, which index past the sockets; such a send is modelled as refused.
- AddrGen.LsAddrGen: linear addressing and the reserved mode.
- Packets.Decode: a slot's union has eight bytes, so the seventh tail byte is not part of its meaning; instruction fields behind the class; bytes behind the packet are taken from memory where the code leaves its buffer unset; a write past the fifth slot is lost.
- Lanes.Adds: accumulator operands wider than 32 bits; likewise for the other 32-bit operations.
- The multiply and multiply-accumulate saturations and `addiuds`.
- Sockets, parsers, profiling, ini files and the debugger client.
