# Verified model: restoring a VM snapshot, and the local APIC driver

The repository moves a stopped x86 virtual machine to another one: it dumps 1 GB of guest
memory, changes two bits in the dump, cuts it around three pages and loads it over the memory of
a target that is already executing firmware. It carries a Linux tree whose local APIC driver
holds several small protocols. This project models both and proves what they are relied on for.

- `Bits.dfy` defines the C operators `&`, `~`, `>>` bit by bit on naturals and turns masks into
  remainders.
- `PhysMem.dfy` is a flat memory of bytes, read and written in little-endian 64-bit words.
- `Paging.dfy` is 4-level paging as the processor does it (Intel SDM Vol. 3A, sections 4.5 and
  4.6.1), large pages included: the entries a walk reads, its end, and the rights they grant.
- `NxPatch.dfy` is the page-table patcher in its own pointer arithmetic, related to `Paging`.
- `Images.dfy` holds small memory images: inputs on which the patcher goes wrong, and an instance of
  a table tree.
- `Restore.dfy` is the snapshot and reload scripts, ending in the theorem that addresses
  translate on the target as they did on the source.
- `Eilvt.dfy` is the compare-and-swap reservation of extended LVT offsets, as atomic steps of
  any number of CPUs in any interleaving.
- `Drain.dfy` is the draining of stale interrupts against an APIC that acts between any two
  register accesses.
- `CpuNumbering.dfy` is the allocation of logical CPU numbers, over all sequences of calls.
- `LapicPower.dfy` is shutdown, suspend and resume over registers that affect each other.
- `X2apic.dfy` is the x2APIC mode machine over whole boots.
- `Calibration.dfy` is the calibration of the APIC timer against the TSC or jiffies, and the PM timer.

Environments are parameters: the memory image and the target's memory are arbitrary; the APIC in
`Drain` is any function of time and registers; clocks in `Calibration` are arbitrary functions
under stated spacing assumptions; register state after a sleep is any legal state. Assumptions on
hardware are named predicates: `Drain.NoArrivals`, `RespectsTpr`, `Delivers` (shown to be
compatible by `AssumptionsConsistent`), `LapicPower.Legal`, `X2apic.LegalMove`,
`Calibration.PollsWithin`, `Clocked`, `CountsDown`, `Linear` (compatible by
`Calibration.AssumptionsConsistent`). `nr_cpu_ids`, `HZ` and the number of CPUs are
symbolic. Constants from headers outside the tree: the EILVT and LVT mask bit is bit 16, there are
8 interrupt registers of 32 bits and 4 EILVT offsets, `MAX_LOCAL_APIC` is 32768, the ACPI PM timer
has 24 bits at 3579545 Hz.

Where the code does not do what one would expect, it is kept and the exact condition is proved:

- The patcher tests upper entries for zero and not for the present bit, and ignores PSE.  Its walk
  ends as the processor's does if and only if the processor's reads four entries, leaves the image,
  or stops at an entry that is zero (`WalksEndAlike`). `AbsentLeavesImage` and `AbsentPatched` are
  inputs with absent entries on which it leaves the file or patches an address that is not mapped;
  `LargePageMissed` and `HugePageMissed` say what happens on 2 MB and 1 GB pages.
- It uses CR3 unmasked: the top-level entry is right exactly when the low twelve bits of CR3 are zero
  (`UnmaskedCr3`).
- The descriptor is patched even if the page-table walk failed (`ModifyMemDump`).
- The drain comes out clean exactly when no vector below 32 is pending at its start; such a
  vector is blocked by the task priority set just before (`PendingIntrClear`).
- If the boot apicid changes between calls, an apicid can get two numbers (`TwoNumbers` is such a
  run). The numbering stays injective through a run if and only if no call in it is for the boot
  apicid of its time while that has a number above 0, a place is left and it is not disabled on the
  command line (`InjectiveExactly` for one call, `InjectiveRuns` for all runs).
- The correction of the TSC difference by the PM timer is exact if and only if two quantities a
  caller can compute fit in 64 and 63 bits (`ScaledExact`).
- `setup_nox2apic` compares the APIC id as a signed number, `x2apic_disable` as an unsigned one; they
  disagree exactly on the ids from 2^31 on (`SignedComparison`).
- EILVT registers agree with the shared slot at every point of a run if and only if the offset is
  never released while some CPU holds a vector for it (`AgreementExactly`). `ReleaseEndsAgreement` is
  a run to a disagreement from every initial state with masked registers, and `CrossCpuAgreement` says
  what remains true of values written before a release.

## Model

| member | source | states |
|---|---|---|
| NxPatch.Indices | memdump/modify-mem-dump.c:183-186 | the four index macros, with their shifts and masks, select the nine address bits of each paging level |
| NxPatch.PfnMasks | memdump/modify-mem-dump.c:196-247 | the frame masks keep exactly bits 12, 21 or 30 to 51, by level and PSE |
| NxPatch.TableAddress | memdump/modify-mem-dump.c:259-273 | without PSE the C code goes to the table that the entry names |
| NxPatch.LargeTarget | memdump/modify-mem-dump.c:222-273 | with PSE it goes to the first byte of the mapped 2 MB or 1 GB page |
| NxPatch.WalkRefinementFrom | memdump/modify-mem-dump.c:275-325 | from any table and level, the C walk finds the processor's leaf entry, leaves the image if the processor's walk does, and stops where that stops at an upper entry, with the code that names the level, iff the entry is zero |
| NxPatch.WalkRefinement | memdump/modify-mem-dump.c:297-325 | the same from a page-aligned CR3: return codes -1, -2, -3 name the zero level, and a 4 KB mapping is always found in bounds |
| NxPatch.WalksEndAlike | memdump/modify-mem-dump.c:297-325 | both walks end at the same leaf entry, the same absent entry or outside the image iff the processor's reads four entries, leaves the image or stops at a zero entry |
| Images.AbsentLeavesImage | memdump/modify-mem-dump.c:304-314 | an image with an absent top-level entry that the C code follows out of the file |
| Images.AbsentPatched | memdump/modify-mem-dump.c:304-335 | an image with three absent entries in which the C code patches an entry for an address that is not mapped |
| NxPatch.UnmaskedCr3 | memdump/modify-mem-dump.c:304-350 | the top-level entry read is the processor's iff the low bits of CR3 are zero |
| NxPatch.ClearPageNXFlag | memdump/modify-mem-dump.c:297-335 | on success only bit 63 of the found entry is cleared, on an error return memory is untouched |
| NxPatch.PatchFrame | memdump/modify-mem-dump.c:329-329 | with tables shared in any way, every address keeps its walk, physical address, write and user rights; executable afterwards iff no other entry of its walk forbids it |
| NxPatch.ClearedForOne | memdump/modify-mem-dump.c:297-335 | after a return of 0, for every address: nothing but execute rights changes, they only grow, and only for walks that read the patched entry |
| NxPatch.TreePatch | memdump/modify-mem-dump.c:297-335 | if no entry is reached by two index paths, a return value of 0 for a 4 KB mapping makes only the requested page executable, iff its three upper entries allow it |
| Images.TreeExists | memdump/modify-mem-dump.c:297-335 | such an image exists, with a page mapped through four tables that may not be executed |
| NxPatch.LargePageFrom | memdump/modify-mem-dump.c:222-273 | where the processor finds a large page, the C walk goes on in the page as if it were the next table |
| NxPatch.LargePageMissed | memdump/modify-mem-dump.c:222-335 | for an address in a 2 MB page the call succeeds on a data word of that page and the address gains nothing unless that word is one of its three entries |
| NxPatch.HugePageMissed | memdump/modify-mem-dump.c:212-335 | for an address in a 1 GB page the call returns -3 or succeeds as a data word of that page is zero or not, and the address gains nothing unless the patched word is one of its two entries |
| Images.LargePagePatched | memdump/modify-mem-dump.c:222-335 | an image with a 2 MB page in which the C code patches a word of the first table |
| Images.HugePageRefused | memdump/modify-mem-dump.c:212-320 | an image with a 1 GB page for which the C code returns -3 |
| Paging.WalkDecidedBySlots | memdump/modify-mem-dump.c:276-335 | a walk depends only on the entries it reads, and not on their execute-disable bits |
| Paging.LeafAddressFields | memdump/modify-mem-dump.c:161-199 | a translated address has the offset of the virtual one and the frame of the leaf entry, for 4 KB, 2 MB and 1 GB pages |
| Restore.ModifyMemDump | memdump/modify-mem-dump.c:337-372 | the file ends up with both patches, the second also when the first was refused, so the busy bit of the TSS descriptor is always clear |
| Restore.TssAvailable | memdump/modify-mem-dump.c:357-363 | the busy bit of the TSS descriptor is clear afterwards and its other 63 bits are kept |
| Restore.DescriptorAvailable | memdump/modify-mem-dump.c:350-365 | in every dump, whatever the walk returned, the busy bit is clear and the other bits of the descriptor are the source's, or those left by a page-table patch of that word |
| Restore.DumpFrame | memdump/modify-mem-dump.c:337-372 | every byte of the dump outside the two patched words is the source's |
| Restore.DescriptorReloaded | reload-saved-memory-qmp.py:25-40 | the target ends up with that descriptor, its busy bit clear |
| Restore.SnapVm | snap-vm-qmp.py:48-79 | the two files are the patched first gigabyte before and after the three-page hole |
| Restore.PMemLoad | reload-saved-memory-qmp.py:25-40 | a load replaces exactly its range |
| Restore.ReloadSavedMemory | reload-saved-memory-qmp.py:25-40 | the three loads leave dump, target hole, flag and target remainder in place |
| Restore.SnapAndReload | reload-saved-memory-qmp.py:25-40 | both scripts together, from source memory to target memory |
| Restore.ReloadedBytes | reload-saved-memory-qmp.py:25-40 | every byte outside the hole is the dump's, every byte in it the target's but for the 8 flag bytes, and memory above 1 GB is kept |
| Restore.RestoreEndToEnd | snap-vm-qmp.py:48-79 | for every address whose source walk avoids the hole and the patched descriptor, the source CR3 over the reloaded target gives the same entries, address or fault, write and user rights; executable iff no entry but the patched one forbids it |
| Restore.TrampolineRuns | snap-vm-qmp.py:69-79 | the trampoline page is reached through the source CR3 on the target, executable iff its upper entries allow it, with the target's own bytes |
| Restore.ReadThrough | reload-saved-memory-qmp.py:25-40 | a virtual read on the target sees the patched dump's byte, which is the source's but for the two patched words, or in the hole the target's |
| Eilvt.ConflictExact | linux/arch/x86/kernel/apic/apic.c:394-413 | the loop gives up iff the slot carries another vector and the request is no release, and the value returned is never the requested one |
| Eilvt.StepCpuKeepsInv | linux/arch/x86/kernel/apic/apic.c:401-459 | every atomic step of any CPU keeps the invariant of all CPUs and never rewrites a past reservation |
| Eilvt.CrossCpuAgreement | linux/arch/x86/kernel/apic/apic.c:394-459 | in every interleaving, register values written or about to be written under one reservation carry one vector, and under the present one the shared slot's |
| Eilvt.AgreedExactly | linux/arch/x86/kernel/apic/apic.c:408-454 | one atomic step of any CPU keeps all CPUs in agreement with the slot iff it does not release the offset while it is in use |
| Eilvt.AgreementExactly | linux/arch/x86/kernel/apic/apic.c:394-459 | in every interleaving, all values written or about to be written agree with the slot at every point iff no step releases the offset while some CPU holds a vector for it |
| Eilvt.AgreementWithoutRelease | linux/arch/x86/kernel/apic/apic.c:394-459 | in particular, while nobody releases, every value written or about to be written has no vector or the slot's |
| Eilvt.ReleaseEndsAgreement | linux/arch/x86/kernel/apic/apic.c:381-459 | one CPU reserves and writes a vector, another releases the offset and reserves it for another vector: the first CPU's register then disagrees with the slot |
| Eilvt.SoloCall | linux/arch/x86/kernel/apic/apic.c:401-459 | a call that is alone and meets no conflict reserves the slot with two compare-and-swaps and writes its register |
| Eilvt.HistoryOfRun | linux/arch/x86/kernel/apic/apic.c:401-423 | over any run the record of reservations grows by one for each release and is otherwise only filled in |
| Eilvt.ReassignedOnlyByRelease | linux/arch/x86/kernel/apic/apic.c:381-423 | an assigned slot changes its vector only through a release in between |
| Eilvt.SwapBound | linux/arch/x86/kernel/apic/apic.c:408-415 | a call makes at most 2k+2 compare-and-swaps when other CPUs change the slot k times during it |
| Eilvt.LoopExits | linux/arch/x86/kernel/apic/apic.c:409-446 | a success is returned iff the slot holds the requested value at the last swap, a refusal iff the vectors conflict, and then the caller's comparison detects it |
| Eilvt.BusyExactly | linux/arch/x86/kernel/apic/apic.c:448-458 | after the loop a call is refused with -EBUSY iff this CPU's register is unmasked and the entry neither masks nor keeps it, leaving the register alone; otherwise exactly this register is written |
| Eilvt.Counting | linux/arch/x86/kernel/apic/apic.c:408-415 | what the counts of `SwapBound` count: this call's compare-and-swaps, and changes of the slot by other CPUs |
| Eilvt.EntryFields | linux/arch/x86/kernel/apic/apic.c:438-438 | vector, message type and mask sit in their fields of the entry |
| Eilvt.BadOffset | linux/arch/x86/kernel/apic/apic.c:405-446 | an offset out of range is always refused |
| Drain.TickCounts | linux/arch/x86/kernel/apic/apic.c:1497-1508 | whatever the APIC does before an access moves vectors from pending to in service and loses none |
| Drain.EoiCounts | linux/arch/x86/include/asm/apic.h:408-457 | an EOI retires exactly the highest vector in service |
| Drain.LocalApic.VectorSetInIrr | linux/arch/x86/include/asm/apic.h:460-465 | the bit tested in the 32-bit word that is read is set iff the vector is pending |
| Drain.IrrPhaseStep | linux/arch/x86/kernel/apic/apic.c:1497-1499 | while IRR is read, a vector pending at the start is in the snapshot or in service |
| Drain.IsrPhaseStep | linux/arch/x86/kernel/apic/apic.c:1501-1503 | while ISR is read after it, nothing in service is missed |
| Drain.AckStep | linux/arch/x86/kernel/apic/apic.c:1510-1517 | as long as snapshot bits are left an EOI finds a vector to retire |
| Drain.LocalApic.CheckAndAck | linux/arch/x86/kernel/apic/apic.c:1493-1522 | false means nothing was pending or in service at the start; without arrivals true means something was; one EOI per snapshot bit, each retiring one vector |
| Drain.RoundProgress | linux/arch/x86/kernel/apic/apic.c:1510-1547 | every unfinished round brings the drain nearer its end |
| Drain.LocalApic.PendingIntrClear | linux/arch/x86/kernel/apic/apic.c:1538-1550 | EOIs never exceed vectors outstanding plus arrivals; clean means both registers are empty; clean, within 450 of the 512 rounds, iff no vector below 32 was pending |
| Drain.AssumptionsConsistent | linux/arch/x86/kernel/apic/apic.c:1616-1628 | the three assumptions on the APIC can hold together |
| CpuNumbering.Registry.AllocateLogicalCpuid | linux/arch/x86/kernel/apic/apic.c:2340-2363 | the scan returns the first slot with the apicid, or appends one, or fails at the limit |
| CpuNumbering.AllocateMeaning | linux/arch/x86/kernel/apic/apic.c:2340-2363 | the number given is of a slot with the apicid; a slot is added only for a new apicid, and refused iff the limit is reached |
| CpuNumbering.Registry.GenericProcessorInfo | linux/arch/x86/kernel/apic/apic.c:2365-2479 | the tables, counters and return value after each path, as the function the results below are about |
| CpuNumbering.AnswerMeaning | linux/arch/x86/kernel/apic/apic.c:2398-2479 | a number means the apicid is registered under it in every table, an error that only the disabled count changed |
| CpuNumbering.DisabledExactly | linux/arch/x86/kernel/apic/apic.c:2391-2400 | the CPU named on the command line is turned down, but never the one that runs the kernel, and none without the option |
| CpuNumbering.MaxApicidFromStart | linux/arch/x86/kernel/apic/apic.c:2462-2463 | after every run max_physical_apicid is the highest apicid in the physical map, 0 while that is empty |
| CpuNumbering.InfoKeepsInv | linux/arch/x86/kernel/apic/apic.c:2365-2479 | one call keeps the mapping injective, the tables in agreement and the room accounting |
| CpuNumbering.NumberingBijection | linux/arch/x86/kernel/apic/apic.c:2340-2479 | so does every sequence of calls with valid apicids and one boot apicid |
| CpuNumbering.RegisteredNumbers | linux/arch/x86/kernel/apic/apic.c:2310-2317 | the registered numbers are 1 to the last slot, and 0 iff the boot CPU was seen; their apicids differ and are exactly the physical map |
| CpuNumbering.CallsCounted | linux/arch/x86/kernel/apic/apic.c:2398-2476 | num_processors plus disabled_cpus counts the calls |
| CpuNumbering.AllocatorHasRoom | linux/arch/x86/kernel/apic/apic.c:2354-2441 | the allocator's own limit is never hit from generic_processor_info |
| CpuNumbering.BootSlotGuarantee | linux/arch/x86/kernel/apic/apic.c:2402-2446 | after any run a slot is free for an unregistered boot CPU, it gets number 0 and nobody else does, and each error code has exactly its reason |
| CpuNumbering.MappingPersists | linux/arch/x86/kernel/apic/apic.c:2344-2362 | numbers above 0 are never taken away or duplicated, even if the boot apicid changes |
| CpuNumbering.SameNumberAgain | linux/arch/x86/kernel/apic/apic.c:2344-2351 | asking again gives the same number and no new slot |
| CpuNumbering.InjectiveExactly | linux/arch/x86/kernel/apic/apic.c:2371-2446 | with a changing boot apicid a call keeps the mapping injective iff its guards do not let it register as boot CPU an apicid numbered above 0 |
| CpuNumbering.InjectiveRuns | linux/arch/x86/kernel/apic/apic.c:2340-2479 | over every run and any boot apicids the mapping is injective after each call iff no call meets that condition |
| CpuNumbering.TwoNumbers | linux/arch/x86/kernel/apic/apic.c:2371-2446 | a run of two calls after which one apicid has two numbers |
| LapicPower.WriteKeepsLegal | linux/arch/x86/include/asm/apic.h:403-406 | every register write keeps LVT entries masked while the APIC is software disabled |
| LapicPower.ErrorExactly | linux/arch/x86/kernel/apic/apic.c:1136-1144 | a write raises an error interrupt iff it puts a vector below 16 with fixed delivery in an LVT entry while LVTERR is unmasked |
| LapicPower.WhyErrorFirst | linux/arch/x86/kernel/apic/apic.c:1137-1144 | without LVTERR masked first, clearing an entry would raise one |
| LapicPower.OtherBitsKept | linux/arch/x86/kernel/apic/apic.c:1141-1217 | setting the mask bit and clearing the enable bit keep all other bits |
| LapicPower.SavedAndRestored | linux/arch/x86/kernel/apic/apic.c:2590-2686 | which registers are saved and which come back, by maxlvt, options and x2APIC mode |
| LapicPower.LvtBeforeEnable | linux/arch/x86/kernel/apic/apic.c:2669-2687 | an LVT value written before SPIV is lost unless masked, after SPIV it is kept |
| LapicPower.Driver.ClearLocalApic | linux/arch/x86/kernel/apic/apic.c:1127-1193 | all LVT entries present are masked, five of them otherwise zero; the value of every register; no error interrupt on the way from any legal state |
| LapicPower.Driver.DisableLocalApic | linux/arch/x86/kernel/apic/apic.c:1206-1227 | afterwards the APIC is software disabled with every LVT entry masked, the entries cleared and nothing else changed |
| LapicPower.Driver.LapicSuspend | linux/arch/x86/kernel/apic/apic.c:2578-2618 | the saved values are those read before the shutdown, and form a legal state |
| LapicPower.Driver.LapicResume | linux/arch/x86/kernel/apic/apic.c:2626-2689 | from any legal register state every saved register that can be written comes back, without an error interrupt |
| LapicPower.Driver.SuspendAndResume | linux/arch/x86/kernel/apic/apic.c:2578-2694 | the round trip over an arbitrary legal state in between; in x2APIC mode ID, LDR and DFR are left alone |
| X2apic.Kernel.LeaveX2apic | linux/arch/x86/kernel/apic/apic.c:1754-1768 | xAPIC mode is reached without an illegal transition |
| X2apic.Kernel.EnterX2apic | linux/arch/x86/kernel/apic/apic.c:1770-1779 | x2APIC mode is entered, with a fault iff the APIC was disabled |
| X2apic.Kernel.SetupNox2apic | linux/arch/x86/kernel/apic/apic.c:1781-1798 | refused iff x2APIC is on and the id, as a signed number, is 255 or more; otherwise disabled for good; the option may be repeated |
| X2apic.SignedComparison | linux/arch/x86/kernel/apic/apic.c:1784-1826 | the signed and the unsigned comparison of the id disagree iff it is 2^31 or more |
| X2apic.NoShortcut | linux/arch/x86/kernel/apic/apic.c:1764-1766 | leaving x2APIC mode in one step, or entering it from the disabled state, would be illegal |
| X2apic.Kernel.CheckX2apic | linux/arch/x86/kernel/apic/apic.c:1868-1877 | adopts the firmware's mode, keeping flag and state in step |
| X2apic.Kernel.X2apicSetup | linux/arch/x86/kernel/apic/apic.c:1802-1813 | the CPU's enable bit matches the global state afterwards and no other CPU is touched |
| X2apic.Kernel.X2apicDisable | linux/arch/x86/kernel/apic/apic.c:1815-1831 | state, flag and boot CPU end up disabled, with a panic iff x2APIC was on and the id is 255 or more |
| X2apic.Kernel.X2apicEnable | linux/arch/x86/kernel/apic/apic.c:1833-1841 | switches on from the off state only |
| X2apic.Kernel.TryToEnable | linux/arch/x86/kernel/apic/apic.c:1843-1866 | unless disabled, it ends on with x2APIC remapping, disabled without it if an id is above 255 or the hypervisor does not help, and on otherwise; DISABLED is never left |
| X2apic.Kernel.ParseAndCheck | linux/arch/x86/kernel/apic/apic.c:1781-1877 | the states after each `nox2apic` and after the check |
| X2apic.Kernel.RunScript | linux/arch/x86/kernel/apic/apic.c:1802-1866 | every action leads to the right next state, and every CPU set up since x2APIC mode was last switched on or off matches it |
| X2apic.Kernel.Boot | linux/arch/x86/kernel/apic/apic.c:1754-1877 | over every boot: no illegal MSR transition, flag iff state ON, x2APIC mode switched on only with remapping or where all CPUs can be addressed without, and in the trace of all states each follows from the one before, DISABLED is never left wherever it is reached, and OFF never returned to |
| Calibration.PmDeltaTrue | linux/arch/x86/kernel/apic/apic.c:710-712 | the PM difference is the true tick count iff fewer than 2^24 ticks passed |
| Calibration.ScaledExact | linux/arch/x86/kernel/apic/apic.c:749-763 | the scaled difference is the exact floor quotient iff nothing overflows |
| Calibration.DeltaFits | linux/arch/x86/kernel/apic/apic.c:749-763 | for a 32-bit timer difference, and for the TSC cycles of a second, it always is |
| Calibration.Calibrator.Handler | linux/arch/x86/kernel/apic/apic.c:690-716 | which call takes which sample, and what is sampled |
| Calibration.Calibrator.HandlerCalls | linux/arch/x86/kernel/apic/apic.c:681-716 | over any number of calls the first sample is from call 2 and the second from call LAPIC_CAL_LOOPS+2 |
| Calibration.Calibrator.WaitForTick | linux/arch/x86/kernel/apic/apic.c:888-907 | a tick ends at the first poll not before it is due, less than one gap late, and the start moves by exactly one jiffy, across TSC and jiffies wrap-around |
| Calibration.Calibrator.PollTicks | linux/arch/x86/kernel/apic/apic.c:876-913 | by either clock lateness does not accumulate: each tick ends at the first poll after its jiffies are over and less than one gap later, and the samples are those of ticks 1 and LAPIC_CAL_LOOPS+1 |
| Calibration.Calibrator.CalibrateByPmtimer | linux/arch/x86/kernel/apic/apic.c:718-767 | values kept without a PM timer or for 354376 to 361532 PM ticks, otherwise scaled to 357954, exactly iff 64 bits do not overflow; in both cases within 1 % of the scaled value |
| Calibration.AdjustedNear | linux/arch/x86/kernel/apic/apic.c:738-752 | kept or scaled, a difference is within 1 % of the scaled one, and which of the two by the PM ticks counted |
| Calibration.JiffyOfSecond | linux/arch/x86/kernel/apic/apic.c:881-881 | a jiffy is its share of a second of TSC cycles, and LAPIC_CAL_LOOPS of them are 100 ms up to a cycle each |
| Calibration.PeriodBound | linux/arch/x86/kernel/apic/apic.c:917-927 | the error of the period for a given error of the sampling window |
| Calibration.CorrectedPeriod | linux/arch/x86/kernel/apic/apic.c:738-927 | with a true PM timer, the period is the timer's rate in PM timer time up to 1 %, a tick of each counter and rounding, and without the 1 % if it was corrected, whatever the polling was like |
| Calibration.Calibrator.CalibrateClock | linux/arch/x86/kernel/apic/apic.c:863-954 | by TSC or jiffies, the readings lie LAPIC_CAL_LOOPS jiffies apart up to one gap and the handler's latency; period and TSC difference are those counted, or those scaled to the PM timer without overflow; both the counted and the corrected period have an error bound; -1 iff it is too slow |

## Left out

- Eilvt.StepCpu: the loop is modelled as atomic steps on values rather than as a loop over memory, because interleavings are the point; atomics are sequentially consistent.
- NxPatch.ClearPageNXFlag: requires every pointer of the C walk to lie in the file, because the C program is undefined otherwise; return code -4 tests a pointer that is never null.
- NxPatch.WalkRefinement: requires a page-aligned CR3 below 2^52, the case `UnmaskedCr3` shows to be the one the C code handles.
- Drain.LocalApic.PendingIntrClear: the exact outcome assumes no arrivals, a task priority of 0x10 and delivery within 16 accesses; what happens to a vector below 32 that the firmware left in service is covered, an APIC that never delivers is not.
- LapicPower.Driver.LapicResume: read-only bits such as delivery status are not part of the register values; the APIC base MSR write in xAPIC mode and the I/O APIC and interrupt remapping calls are left out.
- LapicPower.Driver.ClearLocalApic: the 64-bit kernel's APIC is always integrated, so the branch for a discrete APIC is not modelled.
- CpuNumbering.Registry.GenericProcessorInfo: the version argument only leads to messages and is left out; `nr_cpu_ids` is at least 1; hot removal of CPUs, which lowers the counters elsewhere, is not part of this model.
- X2apic.Kernel.Boot: re-entering x2APIC mode on resume and the re-mapping of the register page are left out.
- Calibration.Calibrator.CalibrateClock: jiffies are taken to advance evenly, and a jiffy to be no shorter than the polling gap; the later verification against jiffies and the early returns for a deadline timer or a known frequency are left out; the three registers the handler reads are read at one instant.
- Paging.Translate: reserved bits other than PS in a top-level entry, protection keys, supervisor-mode prevention and caches are not modelled.
- QMP transport, HMP output, saving and loading of device state, file handling, shell scripts and argument parsing.
- The endless-loop module, the register parsers and log filter, and everything described for the firmware and the emulator, which are not in the repository.
- 32-bit branches, command-line parsing other than `nox2apic`, clock event registration, tracing and printing.
- The register accessors and `default_get_apic_id` in apic.h beyond the reads and writes used above.
