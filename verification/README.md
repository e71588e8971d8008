# TinyLinuxRV: a verified model

TinyLinuxRV is an emulator, written in C, of an RV64IMA machine with machine, supervisor and user modes, Sv39 virtual
memory and interrupt devices, together with the first units of an RTL core in SystemVerilog. This project models the
parts of it where correctness is subtle and proves what they promise, for all inputs, all runs and all reachable states.

- **Translation** (`Sv39`, `Tlb`, `Hart`). The page walk as a loop over levels and as a recursive specification; the
  direct-mapped TLB that caches 4 KiB slices of its results; and the refinement theorem that a processor with TLBs goes
  through the same states as one that walks the tables for every access, for all software that fences before it uses an
  address whose mapping it changed, or else leaves cached page-table words alone. With no assumption, every answer is
  still a walk of the memory of some moment since the last flush.
- **The whole system** (`System`, `ScEscape`, `EscapeProgram`). The loop of `cpu_exec` around processor, bus and
  devices: page walks, fetches, loads, stores, interrupt lines and the clock all come from the modelled machine; only
  the decoder and the arithmetic of instructions are arbitrary functions. The refinement theorem holds of all of it.
- **Registers, traps and interrupts** (`Csr`, `Packed`, `CsrFile`, `CsrLaws`). The CSR file as records of fields, the
  packed 64-bit words of the source, and a proof that the source's masks and field writes compute what the records say;
  then what accesses, traps, returns and interrupts do in the addresses, bits and codes of the privileged manual.
- **The processor** (`Cpu`, `CpuRuns`, `CpuTheorems`, `StepLaws`, `LrSc`, `Processor`). The step function of the
  emulator; the invariant of every reachable state; isolation of machine mode from the lower modes and of supervisor
  mode from user mode; interrupt masking; exact trap round trips, nested ones included; LR/SC bookkeeping; the whole
  effect of a step, instruction by instruction. `Processor` is `cpu_step` in its own imperative form, proved equal to
  the step the theorems are about.
- **Arithmetic** (`Arith`, `MulDiv`, `Divider`, `Multiplier`, `RtlAgreement`, `MExtension`, `AmoAlu`). The restoring
  divider for every width, with its stall handshake, the pipelined multiplier and the AMO unit, each against the
  emulator's C expressions, and these against signed and unsigned numbers.
- **Instruction words** (`Patterns`, `PatternTable`, `Immediates`). The pattern generator; its 98 patterns, what each
  accepts and that they are disjoint; and the immediates.
- **Devices and memory** (`Plic`, `Uart`, `Clint`, `Syscon`, `Memory`, `Bus`). Each device as an object in place and as
  a function on values, its run-level laws, and the bus that makes an 8-byte read, hence a page walk, free of effects.

Where a C or RTL unit updates state in place, the model is a class whose methods are specified by functions on values;
the laws are then lemmas about those functions. Everything from outside the modelled code is a quantified input:
host bytes and host times and the meaning of instruction words; outside module `System` also the bus's answers, the
interrupt lines and the clock. `Riscv` holds shared codes.

A lemma whose name ends in `Exact` or `Law` states what a function does without naming the functions it is made of, in
the numbers of the manuals and of the memory map; it is what makes the definition of that function more than a
definition.

Running `dafny verify dfyconfig.toml` in this directory checks everything.

## Findings

- The TLB checks permissions with the privilege it is given, the walk with the one MPRV selects. Every coherent cache
  agrees with the walk if and only if translation is bypassed, the two privileges are the same, or neither is U and
  either SUM is set or S is neither (`Tlb.AgreementExact`; over legal privileges, `Tlb.LegalAgreement`). In every other
  case `Tlb.ContractNeeded` gives a memory and a coherent cache that disagree. `cpu_step` applies MPRV before it asks,
  so that the privileges are always the same.
- The SC test subtracts the access size from the end of the reservation and wraps after an LR.W of address 0: an SC.D
  then passes at every address (a misaligned one traps before the test). `LrSc.ScTestExact` states exactly which
  accesses pass. No window of the bus holds physical address 0, so it takes a page table:
  `EscapeProgram.EscapeFromReset` runs a program of nine instruction words from reset to an SC.D that completes, on
  every core that decodes its seven instruction forms as `cpu_step` does.
- A PLIC source whose request is completed before it is claimed becomes pending without being busy.
  `Plic.PhaseStep` states that this is the only way out of the cycle idle, requested, in service;
  `Plic.OverrunFromReset` is a run of three events that takes it.
- The UART and PLIC windows touch at 0x10000000. Only an access of no bytes could be routed by the order of the tests
  (`Bus.EmptyAccessIsOrdered`); the CPU makes none.

## Model

| member | source | states |
|---|---|---|
| `Sv39.PageTableWalk` | emulator/src/cpu/mmu.c:252-357 | the goto loop terminates and returns what the recursive Sv39 search and the permission rule say, for every memory and address |
| `Sv39.SuperpageAligned` | emulator/src/cpu/mmu.c:311-317 | the loop over the low ppn fields accepts exactly the leaves aligned to their page size |
| `Sv39.AssembleAddress` | emulator/src/cpu/mmu.c:343-354 | the fields put together are the frame number times 4096 plus the offset within the page of that level |
| `Sv39.PermissionMatchesStandard` | emulator/src/cpu/mmu.c:159-212 | on every entry a walk can end in, the table of tests is the permission rule of the standard with Svade |
| `Sv39.OffsetPreserved` | emulator/src/cpu/mmu.c:343-407 | a translation that is not bypassed (`Sv39.BypassExact`) succeeds iff the search finds a leaf the rule permits; it then keeps the offset within 4 KiB, 2 MiB and 1 GiB pages and names the leaf's frame, below 2^56 |
| `Sv39.BypassExact` | emulator/src/cpu/mmu.c:218-246 | translation is bypassed exactly if satp.mode is 0 or the mode, MPP for a data access under MPRV, is 3 |
| `Sv39.SearchExact` | emulator/src/cpu/mmu.c:252-357 | which entry at which address ends the search at each level, by the bits of the three entries and the three 9-bit slices of the address; it ends in an access fault exactly if an entry it needs cannot be read |
| `Sv39.TranslationExact` | emulator/src/cpu/mmu.c:159-407 | the whole answer in numbers: the address itself in Bare mode and for effective privilege 3, else frame and offset if bits R, W, X, U, A, D, SUM and MXR admit the access, else cause 1, 5, 7, 12, 13 or 15 |
| `Sv39.SamePageSameWalk` | emulator/src/cpu/mmu.c:107-130 | addresses of one 4 KiB page have the same search |
| `Sv39.SliceOfPage` | emulator/src/cpu/tlb.c:60-60 | the frame number of one address of a page of any size serves its whole 4 KiB slice |
| `Sv39.WalkDependsOnReads` | emulator/src/cpu/mmu.c:276-309 | the search depends on memory only through the words it reads |
| `Tlb.Cache.constructor` | emulator/src/cpu/tlb.c:32-35 | the cache starts empty |
| `Tlb.Cache.Void` | emulator/src/cpu/tlb.c:25-27 | every entry is invalid afterwards |
| `Tlb.Cache.Lookup` | emulator/src/cpu/tlb.c:40-100 | the in-place lookup gives the specified answer, new entries and hit and miss counts; `Tlb.HitExact`, `Tlb.MissFills` and `Sv39.TranslationExact` say what these are |
| `Tlb.HitExact` | emulator/src/cpu/tlb.c:40-77 | where translation is on, an entry with this page number and ASID answers with its frame and the offset in the page if its flags admit the access, and otherwise with the page fault of the access |
| `Tlb.MissFills` | emulator/src/cpu/tlb.c:79-93 | a translated lookup that misses and succeeds leaves an entry that hits, with the frame of the answer and the flags of the leaf, and no other entry changed; every other lookup changes nothing |
| `Tlb.LookupAgrees` | emulator/src/cpu/tlb.c:40-93 | on a coherent cache and under the exact condition on privileges the answer is that of the walk, and the cache stays coherent |
| `Tlb.HitAgrees` | emulator/src/cpu/tlb.c:58-77 | a matching entry answers as the walk would for every address of its slice, faults included |
| `Tlb.FillMatches` | emulator/src/cpu/tlb.c:79-91 | what a miss stores matches the walk that produced it |
| `Tlb.AgreementExact` | emulator/src/cpu/tlb.c:53-73 | for any satp, status, access and privilege: every coherent cache answers as the walk, at every address and for every memory, if and only if the condition on the two privileges holds |
| `Tlb.ContractNeeded` | emulator/src/cpu/tlb.c:62-62 | whenever the condition fails, a one-page memory and a one-entry coherent cache on which lookup and walk disagree |
| `Tlb.LegalAgreement` | emulator/src/cpu/mmu.c:365-371 | with legal privileges the condition is: bypass, equal privileges, or a data access of M with MPRV, MPP = S and SUM = 1 |
| `Tlb.UnreadChangesKeepCoherence` | emulator/src/cpu/tlb.c:58-91 | memory changes outside the words of the cached walks keep the cache coherent |
| `Hart.AnswersAgree` | emulator/src/cpu/cpu.c:317-368 | in a coherent hart the fetch, load and store translations of a step are those of the walk at the effective privilege |
| `Hart.SatpChangesFlush` | emulator/src/cpu/cpu.c:757-760 | only a step that flushes the TLBs can change satp |
| `Hart.StepKeepsCoherence` | emulator/src/cpu/cpu.c:452-762 | every step keeps both TLBs coherent with the memory of the step |
| `Hart.FenceEmptiesTlbs` | emulator/src/cpu/cpu.c:696-706 | an SFENCE.VMA executed in machine mode, or in supervisor mode without TVM, leaves both TLBs empty |
| `Hart.SatpWriteEmptiesTlbs` | emulator/src/cpu/cpu.c:757-760 | so does a CSR instruction that writes satp where that is legal, whether satp changes or not |
| `Hart.FlushesExact` | emulator/src/cpu/cpu.c:696-760 | the flushes that the theorems below measure time by are exactly these two: nothing else counts as one |
| `Hart.LookupsFill` | emulator/src/cpu/cpu.c:317-424 | any other executed step leaves in the TLBs what its lookups leave: fetch, load, store, and both of an AMO, at the privilege MPRV selects |
| `Hart.TranslationsAsked` | emulator/src/cpu/cpu.c:317-424 | the translations a step asks for: address, kind of access and privilege of fetch, load, AMO and store |
| `Hart.TlbsAreInvisible` | emulator/src/cpu/cpu.c:452-762 | over every run in which no lookup hits an entry that memory no longer holds, the processor with TLBs has the states of the one that walks for every access |
| `Hart.FencedIsInvisible` | emulator/src/cpu/cpu.c:696-760 | so it has if, on the processor without TLBs, every address a step uses has the leaf it had, or had none, at every step since the last SFENCE.VMA or satp write (`Hart.FlushesExact`): page tables may be edited live and fenced |
| `Hart.KeptIsFresh` | emulator/src/cpu/tlb.c:58-91 | so it has if no word read by a cached walk changes while it is cached, fence or no fence |
| `Hart.UnwrittenIsSettled` | emulator/src/cpu/mmu.c:276-309 | an address is settled if the words of its walk have not been written since the flush |
| `Hart.EntriesAreRecent` | emulator/src/cpu/cpu.c:696-760 | with no assumption on stores, every valid entry has ASID 0 and is the leaf a walk under the present satp found since the last flush |
| `Hart.LookupIsRecentWalk` | emulator/src/cpu/tlb.c:40-93 | a lookup in the TLBs of any reachable hart answers as the present walk or as that of a moment since the last flush |
| `Hart.SecondLookupIsRecentWalk` | emulator/src/cpu/cpu.c:414-424 | so does the second lookup of an AMO, in the data TLB its first lookup has refilled |
| `System.TlbsAreInvisible` | emulator/src/cpu/cpu_exec.c:22-56 | over every run of the loop, reboots included, in which no lookup hits an outdated entry, the system with TLBs has the very states, of processor, devices and memory, of the one that walks for every access, for every decoder and arithmetic |
| `System.FencedIsInvisible` | emulator/src/cpu/cpu_exec.c:22-56 | so it has for all software that, on the system without TLBs, fences before it uses an address whose leaf it changed, a fence being what `Hart.FlushesExact` says |
| `System.KeptIsInvisible` | emulator/src/cpu/cpu_exec.c:22-56 | so it has if no page-table word changes while a walk that read it is cached |
| `System.HarmlessIsKept` | emulator/src/bus/bus.c:41-58 | which is the case if no step stores over a word still cached after it, and none of these is mtime |
| `System.RunOfTrace` | emulator/src/cpu/cpu_exec.c:22-56 | the processor of the system goes through a run of module Hart, so that every theorem about those holds of it |
| `System.ReachableOk` | emulator/src/cpu/cpu_exec.c:22-56 | in every state of the system the processor's invariant holds, and every cached entry is the leaf of a walk since the last flush |
| `System.NextAgrees` | emulator/src/cpu/cpu_exec.c:22-56 | one turn of the loop whose lookups hit no outdated entry is the turn of the system without TLBs, through the same events |
| `System.FetchExact` | emulator/src/cpu/cpu.c:477-501 | a waking turn translates pc, reads four bytes there, and decodes their little-endian value |
| `System.LoadExact` | emulator/src/cpu/cpu.c:331-347 | a load that reaches the bus reads at its physical address and size, with the effect of that read |
| `System.StoreExact` | emulator/src/cpu/cpu.c:353-366 | a store that reaches the bus writes the low bytes of its value at its physical address, and learns whether the bus accepts |
| `System.ScExact` | emulator/src/cpu/cpu.c:400-411 | an SC does the same if the reservation is valid and fits, and leaves the machine alone otherwise |
| `System.AmoExact` | emulator/src/cpu/cpu.c:414-424 | an AMO reads, and if the bus answers writes what may depend on the value read |
| `System.UnreachedExact` | emulator/src/cpu/cpu.c:317-424 | an access that is not executed, faults or is misaligned leaves the machine alone |
| `System.QuietExact` | emulator/src/cpu/cpu.c:510-736 | so does every instruction that is not a memory instruction, after its fetch |
| `System.RebootExact` | emulator/src/cpu/cpu_exec.c:35-38 | a turn that asks for a reboot ends with the processor as after reset, empty TLBs, no request, and memory as it was |
| `System.UpdateExact` | emulator/src/device/device.c:105-138 | between steps the UART polls, the clock ticks, and line 10 of the PLIC gets the UART's level as it then is |
| `System.LinesExact` | emulator/src/device/device.c:121-138 | MEIP and SEIP are PLIC contexts 0 and 1, MSIP and MTIP the CLINT's two lines; the PLIC sees the UART on line 10 and nothing else |
| `System.ResetExact` | emulator/src/device/device.c:81-86 | what a device reset clears and what it keeps |
| `System.LinesAtReset` | emulator/src/device/device.c:121-138 | after a reset all interrupt lines are low, as the loop starts with them |
| `System.ReadsKeepWords` | emulator/src/bus/bus.c:21-39 | no read on the bus, of any size, changes a word a page walk can see |
| `System.ServedWords` | emulator/src/cpu/cpu.c:452-762 | the bus accesses of a whole step change only the words its store overlaps |
| `System.UpdatesKeepWords` | emulator/src/device/device.c:105-138 | what the devices do between steps changes no word a page walk can see but mtime |
| `System.TurnKeepsWord` | emulator/src/cpu/cpu_exec.c:22-56 | a turn without a reboot changes only mtime and the words its store covers |
| `Csr.PutInv` | emulator/src/cpu/csr.c:435-542 | every accepted write keeps the register invariant: masks, WARL fix-ups, alignment, MPP, satp |
| `Csr.AccessInv` | emulator/src/cpu/csr.c:309-545 | every access, accepted or rejected, keeps the register invariant |
| `Csr.TrapInv` | emulator/src/cpu/csr.c:554-635 | trap entry keeps the invariant, never lowers the privilege and vectors to an aligned address |
| `Csr.ReturnInv` | emulator/src/cpu/csr.c:645-689 | both trap returns keep the invariant, MPRV cleared below machine mode, and return to an aligned address |
| `Csr.WriteBackIsNeutral` | emulator/src/cpu/csr.c:384-542 | in every reachable state, writing back what a read of any register shows, its view for sstatus, sie and sip, changes nothing |
| `Packed.SstatusRead` | emulator/src/cpu/csr.c:389-391 | reading mstatus through the sstatus mask shows the supervisor fields and UXL alone |
| `Packed.DelegatedRead` | emulator/src/cpu/csr.c:392-401 | reading mie or mip through mask and mideleg shows the delegated supervisor bits alone |
| `Packed.SstatusWritten` | emulator/src/cpu/csr.c:477-510 | writing sstatus through its mask changes exactly SIE, SPIE, SPP, SUM and MXR |
| `Packed.MstatusWritten` | emulator/src/cpu/csr.c:442-520 | writing mstatus through its mask, with MPP = 2 settled to 0, is the field-wise write |
| `Packed.IrqsWritten` | emulator/src/cpu/csr.c:446-510 | a masked write of mie, mip or mideleg acts on the masked interrupt bits alone |
| `Packed.DelegatedMasks` | emulator/src/cpu/csr.c:481-488 | the masks of sie and sip are the delegated supervisor bits |
| `Packed.CodesWritten` | emulator/src/cpu/csr.c:454-457 | a masked write of medeleg acts on the delegable causes alone |
| `Packed.CountersWritten` | emulator/src/cpu/csr.c:468-476 | a masked write of the counter-enable and inhibit registers acts on CY, TM and IR alone |
| `Packed.MachineTrapWritten` | emulator/src/cpu/csr.c:588-593 | the field writes of a trap into machine mode, on packed bits |
| `Packed.SupervisorTrapWritten` | emulator/src/cpu/csr.c:608-613 | the same for supervisor mode |
| `Packed.MretStatusWritten` | emulator/src/cpu/csr.c:645-659 | the field writes of MRET, MPRV included |
| `Packed.SretStatusWritten` | emulator/src/cpu/csr.c:672-686 | the field writes of SRET |
| `Packed.LinesWritten` | emulator/src/cpu/csr.c:728-732 | the four interrupt lines reach their mip bits and no other |
| `CsrFile.Registers.constructor` | emulator/src/cpu/csr.c:217-304 | the packed registers start as the reset file |
| `CsrFile.Registers.Access` | emulator/src/cpu/csr.c:309-545 | the in-place access is accepted iff legal (`CsrLaws.LegalExact`), delivers the number of the register when it reads, and leaves the file the access function gives (`CsrLaws.AccessExact`), written flags included |
| `CsrFile.Registers.Enter` | emulator/src/cpu/csr.c:554-635 | in-place trap entry is the trap function: target mode, saved state, vector (`CsrLaws.TrapExact`, `CsrLaws.CauseExact`) |
| `CsrFile.Registers.ExitMret` | emulator/src/cpu/csr.c:645-662 | in-place MRET is the return function |
| `CsrFile.Registers.ExitSret` | emulator/src/cpu/csr.c:672-689 | in-place SRET is the return function |
| `CsrFile.Registers.PendingAndEnabled` | emulator/src/cpu/csr.c:697-707 | the scan returns the first interrupt of the fixed order that fires, or none (`CsrLaws.InterruptExact`) |
| `CsrFile.Registers.Pending` | emulator/src/cpu/csr.c:712-714 | the wake-up test is that some mip bit is set |
| `CsrFile.Registers.Begin` | emulator/src/cpu/csr.c:720-733 | the start of a step: flags cleared, inhibit bits latched, lines sampled |
| `CsrFile.Registers.End` | emulator/src/cpu/csr.c:738-752 | the end of a step: the counters that are neither inhibited nor written advance |
| `CsrFile.Check` | emulator/src/cpu/csr.c:240-268 | one interrupt fires as delegation, enable bits and privilege say (`CsrLaws.InterruptExact`) |
| `CsrFile.HandlingMode` | emulator/src/cpu/csr.c:569-585 | the delegation tests pick the specified target mode |
| `CsrFile.Accepts` | emulator/src/cpu/csr.c:321-428 | the tests before an access accept exactly the legal ones (`CsrLaws.LegalExact`) |
| `CsrFile.DataShows` | emulator/src/cpu/csr.c:384-428 | the delivered word, read as the register's kind, is what the register shows |
| `CsrFile.Write` | emulator/src/cpu/csr.c:435-542 | the write half has the specified effect on every register |
| `CsrLaws.FieldsExact` | emulator/src/cpu/csr.c:52-185 | which bit of a packed word is which field, for mstatus, the interrupt, counter and delegation registers |
| `CsrLaws.LegalExact` | emulator/src/cpu/csr.c:309-428 | an access is accepted exactly if its address is one of 32, bits 9..8 grant the mode, it does not write where bits 11..10 are 3, TVM does not bar supervisor mode from satp, and mcounteren and, for user mode, scounteren admit the counter it reads |
| `CsrLaws.AccessExact` | emulator/src/cpu/csr.c:309-545 | an accepted write reaches one register and raises the flag of satp, mcycle or minstret by its address; anything else changes the shadow of mtime alone |
| `CsrLaws.MergeNumExact` | emulator/src/cpu/csr.c:497-509 | write, set and clear act on a number bit by bit |
| `CsrLaws.StatusWrites` | emulator/src/cpu/csr.c:442-520 | the five fields sstatus writes and the twelve mstatus writes; MPP = 2 settles to 0 |
| `CsrLaws.SupervisorIrqWrites` | emulator/src/cpu/csr.c:481-488 | sie writes bits 1, 5 and 9 where mideleg has them, sip bit 1 so, and nothing else |
| `CsrLaws.MachineIrqWrites` | emulator/src/cpu/csr.c:446-460 | mie writes all six interrupt bits, mip and mideleg bits 1, 5 and 9 |
| `CsrLaws.DelegationWrites` | emulator/src/cpu/csr.c:454-457 | medeleg writes the causes below 16 but 10, 11 and 14 |
| `CsrLaws.SatpWrites` | emulator/src/cpu/csr.c:490-542 | satp takes mode 0 or 8 with its page number, keeps its ASID, and ignores a write of any other mode; misa takes none |
| `CsrLaws.StatusRead` | emulator/src/cpu/csr.c:384-428 | bit k of the number delivered for mstatus, mie, mip and mideleg is bit k of the register |
| `CsrLaws.ViewsRead` | emulator/src/cpu/csr.c:389-401 | bit k delivered for sstatus is that of mstatus for k = 1, 5, 8, 18, 19, 32, 33, and for sie and sip that of mie and mip for delegated k = 1, 5, 9 |
| `CsrLaws.TrapExact` | emulator/src/cpu/csr.c:554-635 | a trap enters supervisor mode exactly if it is delegated and comes from below machine mode, else machine mode; the new mstatus, epc, cause, tval and the handler's address, in numbers |
| `CsrLaws.CauseExact` | emulator/src/cpu/cpu.c:506-507 | the cause register has bit 63 exactly for interrupts, and the rest is the interrupt or exception number |
| `CsrLaws.ReturnExact` | emulator/src/cpu/csr.c:645-689 | MRET and SRET by the bits of mstatus: pc, privilege, interrupt enable, MPRV |
| `CsrLaws.InterruptExact` | emulator/src/cpu/csr.c:240-268 | the interrupt selected is the first of 11, 3, 7, 9, 1, 5 that is pending, enabled in mie, and handled above the present mode or in it with its interrupts on; none exactly if there is none such |
| `CsrLaws.CountingExact` | emulator/src/cpu/csr.c:720-752 | which mip bits the lines reach, and when mcycle and minstret advance |
| `CsrLaws.ResetExact` | emulator/src/cpu/csr.c:217-304 | misa, UXL and SXL after reset, and that all else is zero |
| `CpuRuns.StepOk` | emulator/src/cpu/cpu.c:452-762 | every step keeps the state invariant |
| `CpuRuns.ReachableOk` | emulator/src/cpu/cpu.c:440-762 | in every reachable state: legal privilege and MPP, MPRV only in machine mode, UXL = SXL = 2, registers inside their masks, satp Bare or Sv39 with ASID 0, aligned pc and return addresses, x0 = 0 |
| `CpuTheorems.RejectedAccess` | emulator/src/cpu/csr.c:309-370 | a rejected access changes nothing but the shadow of mtime |
| `CpuTheorems.LowerModesCannotTouchMachine` | emulator/src/cpu/csr.c:309-689 | a run that never enters machine mode leaves the machine-mode registers, the non-delegated mie bits and the machine fields of mstatus as they were |
| `CpuTheorems.UserModeCannotTouchSupervisor` | emulator/src/cpu/csr.c:325-327 | a run that stays in user mode leaves satp, stvec, sscratch, sepc, scause, stval, scounteren, mstatus, mie and all of machine mode as they were |
| `CpuTheorems.SelectedInterruptIsTaken` | emulator/src/cpu/csr.c:573-707 | the interrupt taken is the first of the scan that fires, as `CsrLaws.InterruptExact` spells out; it enters exactly the mode its test computed, never below the current one, and masks itself |
| `CpuTheorems.NoReentrantInterrupt` | emulator/src/cpu/csr.c:240-268 | on every run after that, no interrupt enters the mode again before a write of mstatus or sstatus or a trap return |
| `CpuTheorems.MachineRoundTrip` | emulator/src/cpu/csr.c:588-662 | a trap into machine mode and MRET restore pc, privilege and all of mstatus but MPIE and MPP |
| `CpuTheorems.SupervisorRoundTrip` | emulator/src/cpu/csr.c:608-689 | a trap into supervisor mode and SRET restore pc, privilege and all of mstatus but SPIE and SPP; needs the MPRV invariant |
| `CpuTheorems.HandlerStepEffect` | emulator/src/cpu/csr.c:554-662 | a step of a supervisor handler, or of a machine trap out of it, that writes none of mstatus, sstatus and sepc keeps sepc and does one of three things to privilege and mstatus |
| `CpuTheorems.NestedTrapHappens` | emulator/src/cpu/csr.c:554-689 | such nested runs exist from every calm user-mode state |
| `CpuTheorems.NestedTrapRestores` | emulator/src/cpu/csr.c:554-689 | a supervisor trap with any number of machine traps and MRETs inside it, then SRET, restores the interrupted context up to SPIE, SPP, MPIE and MPP |
| `StepLaws.RunsExact` | emulator/src/cpu/cpu.c:463-508 | a step sleeps exactly in WFI with mip empty after sampling; it takes the interrupt that is due, by the manual's order and masks, exactly after a successful fetch; it runs its instruction otherwise |
| `StepLaws.SleepLaw` | emulator/src/cpu/cpu.c:465-475 | asleep, a step samples the lines and does nothing else |
| `StepLaws.FetchLaw` | emulator/src/cpu/cpu.c:477-508 | a failed fetch raises its fault, or cause 1, with tval = pc; a due interrupt traps with tval 0 |
| `StepLaws.PlainLaw` | emulator/src/cpu/cpu.c:510-637 | computations, jumps, branches and fences: rd, pc, and cause 0 for a misaligned target |
| `StepLaws.LoadLaw` | emulator/src/cpu/cpu.c:331-396 | loads and LR: the translation's fault, then cause 4, then 5, else rd and, for LR, the reservation |
| `StepLaws.StoreLaw` | emulator/src/cpu/cpu.c:353-366 | stores: the translation's fault, then cause 6, then 7, else nothing but pc |
| `StepLaws.ScLaw` | emulator/src/cpu/cpu.c:400-411 | SC: cause 6 if misaligned; otherwise the reservation is given up, and rd is 1 if it did not fit, 0 if the store completed |
| `StepLaws.AmoLaw` | emulator/src/cpu/cpu.c:414-424 | AMOs: cause 6 if misaligned, the load's faults with cause 7 from the bus, the store's faults, else the loaded value |
| `StepLaws.EnvironmentLaw` | emulator/src/cpu/cpu.c:646-659 | ECALL raises 8 plus the mode, EBREAK 3 with tval = pc, an illegal word 2 with the word |
| `StepLaws.MretLaw` | emulator/src/cpu/cpu.c:660-672 | MRET outside machine mode is illegal; in it, the return by the bits of mstatus |
| `StepLaws.SretLaw` | emulator/src/cpu/cpu.c:673-685 | SRET in user mode, and under TSR in supervisor mode, is illegal; else the return |
| `StepLaws.WaitAndFenceLaw` | emulator/src/cpu/cpu.c:686-706 | WFI under TW and SFENCE.VMA under TVM are illegal in supervisor mode, and both in user mode |
| `StepLaws.CsrLaw` | emulator/src/cpu/cpu.c:370-384 | when a CSR instruction reads and writes; a legal one leaves csr_access's file and the delivered number, an illegal one cause 2 with the word |
| `LrSc.ReservationStep` | emulator/src/cpu/cpu.c:389-411 | only a completed LR sets the reservation, and a completed SC leaves it invalid |
| `LrSc.BooksHold` | emulator/src/cpu/cpu.c:389-411 | over every run the reservation is that of the latest successful LR and pays for at most one SC |
| `LrSc.ScsNeverOutnumberLrs` | emulator/src/cpu/cpu.c:400-411 | successful SCs never outnumber successful LRs |
| `LrSc.ReservationUsedOnce` | emulator/src/cpu/cpu.c:400-411 | between two successful SCs there is a successful LR |
| `LrSc.ScTestExact` | emulator/src/cpu/cpu.c:403-403 | the SC test admits exactly the accesses inside the reserved bytes, but for SC.D after LR.W of address 0 |
| `LrSc.ScStoresInsideLatestLr` | emulator/src/cpu/cpu.c:389-411 | over every run a successful SC stores inside the bytes of the latest LR if and only if it is not an SC.D after LR.W of address 0 |
| `ScEscape.ScEscapesAtZero` | emulator/src/cpu/cpu.c:389-411 | after any run of the system that ends in machine mode with MPRV set, MPP = U, address 0 mapped to RAM and the words of the two instructions next in RAM, LR.W of address 0 completes and then SC.D of any mapped b, outside the reserved word |
| `EscapeProgram.EscapeFromReset` | emulator/src/cpu/cpu.c:440-762 | ADDI, SLLI, LUI, ADD, CSRRW satp, LUI, CSRRW mstatus, LR.W, SC.D, as nine words in RAM, get there from reset: the ninth turn completes an SC.D of 0x20000 under the reservation of address 0, with any activity of the devices |
| `EscapeProgram.MeaningAt` | emulator/src/cpu/cpu.c:513-712 | each of the nine words, by its fields and immediate, is the instruction it is meant to be, with operands from the registers |
| `EscapeProgram.EscapeHappens` | emulator/src/cpu/cpu.c:440-762 | such a core and such a RAM exist: a decoder of those forms and an image with program and page table |
| `ScEscape.ScStoresInsideLatestLr` | emulator/src/cpu/cpu.c:389-411 | on the whole system, too, containment fails exactly in that case |
| `Processor.Unit.constructor` | emulator/src/cpu/cpu.c:440-447 | the object starts in the reset state with empty TLBs |
| `Processor.Unit.DoSc` | emulator/src/cpu/cpu.c:400-411 | in-place SC: alignment, reservation given up, then the store |
| `Processor.Unit.DoAmo` | emulator/src/cpu/cpu.c:414-424 | in-place AMO: load and store translations in order, each with its faults |
| `Processor.Unit.DoCsr` | emulator/src/cpu/cpu.c:370-384 | in-place CSR instruction, with its read and write suppression; rd gets the number the access reads |
| `Processor.Unit.Dispatch` | emulator/src/cpu/cpu.c:510-736 | the switch over opcodes ends where the execution function says and leaves state and TLBs as it says |
| `Processor.Unit.FetchAndExecute` | emulator/src/cpu/cpu.c:477-736 | fetch, interrupt check and execution, in the order of the source |
| `Processor.Unit.Tail` | emulator/src/cpu/cpu.c:743-762 | trap entry, x0, new pc, flush after a satp write, counters |
| `Processor.Unit.Step` | emulator/src/cpu/cpu.c:452-762 | cpu_step, in place, takes the object from the value of one hart state to the value of the next, with the CSR it reads delivered from its own registers |
| `MulDiv.DivisionIdentity` | emulator/src/cpu/cpu.c:122-160 | a = b q + r modulo 2^64 for all operands, b = 0 and overflow included, with the remainder below the divisor otherwise |
| `Divider.Unit.Posedge` | hardware/rtl/cpu/divider.sv:109-171 | the always blocks of one clock edge compute the next register state |
| `Divider.FitsTest` | hardware/rtl/cpu/divider.sv:138-146 | the sign bit of the double-width difference says whether the shifted divisor fits |
| `Divider.PartialStep` | hardware/rtl/cpu/divider.sv:144-171 | each iteration keeps a = Q b 2^(w-k) + R with R below b 2^(w-k) |
| `Divider.BusyRun` | hardware/rtl/cpu/divider.sv:109-171 | k cycles after a request the registers hold k quotient bits and the loop invariant |
| `Divider.BusyDone` | hardware/rtl/cpu/divider.sv:173-185 | when the counter reaches the width, sign repair yields the architectural result |
| `Divider.DividesIn` | hardware/rtl/cpu/divider.sv:89-187 | for every width, operand pair and opcode a request stalls exactly w + 1 cycles and then shows the section 7.2 result, division by zero and overflow included |
| `Divider.HeldRequestRepeats` | hardware/rtl/cpu/divider.sv:89-187 | inputs held stable repeat the division with period w + 2, showing the result once each period |
| `Multiplier.Unit.Posedge` | hardware/rtl/cpu/multiplier.sv:67-91 | the always blocks of one clock edge compute the next register state |
| `Multiplier.HandshakeHolds` | hardware/rtl/cpu/multiplier.sv:81-93 | in every state reached from reset, running means exactly one stage is valid |
| `Multiplier.MultipliesInTwo` | hardware/rtl/cpu/multiplier.sv:62-93 | a request stalls two cycles and then shows the selected half of the product of the operands of its first cycle |
| `RtlAgreement.DividerMatchesEmulator` | hardware/rtl/cpu/divider.sv:89-187 | the 64-bit divider shows what the emulator computes for the eight divide and remainder instructions |
| `RtlAgreement.Div64` | emulator/src/cpu/cpu.c:122-160 | the emulator's special cases are the standard's definition of division |
| `RtlAgreement.SignedWords` | emulator/src/cpu/cpu.c:162-198 | dividing sign-extended words and cutting back is the emulator's word division |
| `RtlAgreement.UnsignedWords` | emulator/src/cpu/cpu.c:176-208 | the same for unsigned words |
| `RtlAgreement.MultiplierMatchesEmulator` | emulator/src/cpu/cpu.c:94-120 | the 64-bit multiplier shows what the emulator computes for the five multiply instructions |
| `RtlAgreement.SignedUnsignedHigh` | emulator/src/cpu/cpu.c:109-113 | the unsigned 128-bit product of MULHSU has the signed high half |
| `MExtension.SignedDivision` | emulator/src/cpu/cpu.c:122-160 | DIV and REM on all operands: the one quotient and remainder that round towards zero, and the two exceptional cases in numbers |
| `MExtension.DividesUnique` | emulator/src/cpu/cpu.c:122-160 | there is only one such pair |
| `MExtension.UnsignedDivision` | emulator/src/cpu/cpu.c:134-160 | DIVU and REMU on all operands |
| `MExtension.SignedWordDivision` | emulator/src/cpu/cpu.c:162-198 | DIVW and REMW: the same on the signed low words, the results sign-extended words |
| `MExtension.UnsignedWordDivision` | emulator/src/cpu/cpu.c:176-208 | DIVUW and REMUW on the unsigned low words, the results sign-extended |
| `MExtension.MultiplicationExact` | emulator/src/cpu/cpu.c:94-120 | MUL, MULH, MULHSU and MULHU are the halves of the product of the operands read as numbers |
| `MExtension.WordMultiplicationExact` | emulator/src/cpu/cpu.c:115-120 | MULW is the low word of the product, sign-extended |
| `AmoAlu.LessThanAgrees` | hardware/rtl/cpu/amo_alu.sv:24-32 | one unsigned comparison, after sign extension and sign flip, makes all four orders |
| `AmoAlu.MatchesEmulator` | emulator/src/cpu/cpu.c:426-430 | AMO unit and emulator agree on doublewords, and on every stored byte for words |
| `AmoAlu.OutputExact` | hardware/rtl/cpu/amo_alu.sv:34-50 | the nine operations on doublewords as numbers: the sum modulo 2^64, minima and maxima by signed and unsigned order, the logic halves |
| `AmoAlu.BitwiseExact` | hardware/rtl/cpu/amo_alu.sv:39-41 | bit k of AND, OR and XOR is that of the operands' bits k |
| `AmoAlu.WordOutputExact` | hardware/rtl/cpu/amo_alu.sv:34-50 | on words: swap, sum modulo 2^32 and logic, sign-extended |
| `AmoAlu.WordOrderExact` | hardware/rtl/cpu/amo_alu.sv:42-45 | on words: minima and maxima by the order of the low words |
| `Patterns.ParsePattern` | emulator/scripts/generate_inst_patterns.py:108-128 | the loop returns the parse of the pattern, and fails iff some character is unknown |
| `Patterns.MaskTestExact` | emulator/src/cpu/cpu.c:300-306 | for patterns of any length the masked comparison holds iff every character but `?` matches its bit |
| `Patterns.SeparatorsIgnored` | emulator/scripts/generate_inst_patterns.py:112-114 | separators do not change the parse |
| `PatternTable.TailGives` | emulator/scripts/generate_inst_patterns.py:108-128 | for any pattern, digits at its end ask for the low bits they spell and leave the rest to what is before them |
| `PatternTable.TailSkips` | emulator/scripts/generate_inst_patterns.py:108-128 | question marks at its end ask for nothing and shift the rest |
| `PatternTable.Listed` | emulator/scripts/generate_inst_patterns.py:7-105 | the strings of the script, as it spells them, are there for exactly the formats of the table |
| `PatternTable.TestExact` | emulator/src/cpu/cpu.c:300-306 | the mask and golden value that parse_pattern makes of an entry's string accept exactly the instructions with the fields of its format |
| `PatternTable.PatternsDisjoint` | emulator/scripts/generate_inst_patterns.py:7-105 | the 98 entries are pairwise disjoint, and each fixes the opcode of its switch case |
| `PatternTable.OrderIsIrrelevant` | emulator/src/cpu/cpu.c:511-737 | any order of a switch case's tests selects the one entry that matches, or none |
| `Immediates.ImmediateExact` | emulator/src/cpu/cpu.c:223-255 | the decoded immediate is v iff v is expressible in the format and its bits stand where the ISA manual places them |
| `Immediates.FormatExact` | emulator/src/cpu/cpu.c:230-255 | which opcodes have which immediates |
| `Plic.DecodeInvertsMap` | emulator/src/device/plic.c:35-106 | decoding inverts the register map, and no offset decodes to a register it does not lie in |
| `Plic.ClaimIsBest` | emulator/src/device/plic.c:167-187 | the claim is the lowest id of greatest positive priority among enabled pending sources, or 0 iff there is none |
| `Plic.ClaimExact` | emulator/src/device/plic.c:247-284 | reading 0x200004 + 0x1000 c delivers the best enabled pending source, lowest id first, or 0, and clears its pending bit alone |
| `Plic.CompletionExact` | emulator/src/device/plic.c:203-245 | writing an id there makes its gateway idle if the context has it enabled, and changes nothing else |
| `Plic.LinesExact` | emulator/src/device/plic.c:109-161 | a high line makes an idle source pending and busy; a context is signalled iff an enabled pending source has a priority above 0 and the threshold |
| `Plic.SignalledIsClaimable` | emulator/src/device/plic.c:144-187 | when a context is signalled, its claim is a source above the threshold |
| `Plic.LinesAtOnce` | emulator/src/device/plic.c:290-294 | one gateway after the other has the effect of all gateways at once |
| `Plic.ReadsBack` | emulator/src/device/plic.c:203-280 | priorities, enables and thresholds read back as written but for source 0, and a write changes no other register |
| `Plic.StepOk` | emulator/src/device/plic.c:119-120 | every step keeps source 0 without priority, enable, pending and busy bits |
| `Plic.SourceStep` | emulator/src/device/plic.c:109-141 | the exact effect of an event on the two flags of one source |
| `Plic.Conservation` | emulator/src/device/plic.c:109-294 | over every run from reset: claims + pending <= forwards <= accepted completions + busy, per source |
| `Plic.PhaseStep` | emulator/src/device/plic.c:109-141 | a source moves only along idle, requested, in service, and leaves the cycle exactly when completed before claimed |
| `Plic.OverrunHappens` | emulator/src/device/plic.c:109-141 | after any run that leaves a source enabled and idle, a request and a completion at once take it out of the cycle |
| `Plic.OverrunFromReset` | emulator/src/device/plic.c:109-141 | such a run from reset for each source, with its line alone raised; the emulator drives source 10 of 11 |
| `Plic.DisciplinedConservation` | emulator/src/device/plic.c:109-294 | if software completes only what is in service, both inequalities are equalities and the source stays in the cycle |
| `Plic.Controller.constructor` | emulator/src/device/plic.c:193-201 | the controller starts in the reset state |
| `Plic.Controller.GetClaimId` | emulator/src/device/plic.c:167-187 | the scanning loop is the claim function |
| `Plic.Controller.InterruptPerContext` | emulator/src/device/plic.c:144-161 | the scanning loop is true iff some eligible source is above the threshold |
| `Plic.Controller.GatewayIrq` | emulator/src/device/plic.c:109-121 | one gateway in place |
| `Plic.Controller.IrqUpdate` | emulator/src/device/plic.c:290-294 | the loop forwards every idle source whose line is high, at once |
| `Plic.Controller.WriteReg` | emulator/src/device/plic.c:203-245 | a register write in place, completion and the repair of source 0 included |
| `Plic.Controller.ReadReg` | emulator/src/device/plic.c:247-284 | a register read in place; a claim clears only its pending bit |
| `Uart.ReachableOk` | emulator/src/device/uart16550.c:58-75 | the queue never exceeds 16 or 1; with the FIFO on, the poll guard leaves nothing to drop |
| `Uart.Conservation` | emulator/src/device/uart16550.c:50-90 | over every run bytes are delivered in the order received, the waiting ones are the queue, and received = delivered + queued + dropped + discarded |
| `Uart.OverrunIsFlagged` | emulator/src/device/uart16550.c:58-70 | over every run the overrun flag is set iff a byte was dropped since the last status read, clear or reset |
| `Uart.QueueRegisters` | emulator/src/device/uart16550.c:137-241 | status, data and FIFO control registers in bits, and what reading or writing them does to the queue |
| `Uart.PollExact` | emulator/src/device/uart16550.c:263-292 | a byte is taken while fewer than 16 wait; with the FIFO off a second one sets the overrun flag |
| `Uart.PlainRegisters` | emulator/src/device/uart16550.c:103-258 | the other registers read back as written, behind LCR bit 7, and touch the queue not at all; other sizes and offsets are rejected |
| `Uart.InterruptExact` | emulator/src/device/uart16550.c:297-357 | the line is high iff an enabled cause holds, where a waiting byte is enough whatever the trigger level of FCR; IIR shows line, cause and mode |
| `Uart.Receiver.constructor` | emulator/src/device/uart16550.c:92-101 | the receiver starts empty with the FIFO on |
| `Uart.Receiver.ClearRing` | emulator/src/device/uart16550.c:50-56 | the ring is emptied and its flags cleared |
| `Uart.Receiver.ResetDevice` | emulator/src/device/uart16550.c:92-96 | reset from any state |
| `Uart.Receiver.PutByte` | emulator/src/device/uart16550.c:58-75 | a write into the ring appends to the queue or flags the overrun; wr = (rd + size) mod 16 is kept |
| `Uart.Receiver.GetByte` | emulator/src/device/uart16550.c:77-90 | a read from the ring takes the oldest byte of the queue |
| `Uart.Receiver.PollInput` | emulator/src/device/uart16550.c:263-292 | a poll takes the host's byte iff the ring has room |
| `Uart.Receiver.WriteFcr` | emulator/src/device/uart16550.c:137-148 | switching the FIFO mode or asking for a clear empties the queue, once; the value is kept |
| `Uart.Receiver.ReadLsr` | emulator/src/device/uart16550.c:221-241 | the status byte shows data ready and overrun, and the read clears the overrun |
| `Uart.Receiver.IrqLevel` | emulator/src/device/uart16550.c:297-357 | the interrupt line in place, with the field writes of IIR in order |
| `Uart.Receiver.ReadReg` | emulator/src/device/uart16550.c:178-258 | register reads of any size: the value or a rejection, and the effect on the device |
| `Uart.Receiver.WriteReg` | emulator/src/device/uart16550.c:103-176 | register writes of any size: acceptance and effect |
| `Clint.TimeIsAccounted` | emulator/src/device/clint.c:146-153 | for any host clock, mtime advances by exactly the time accounted for, in whole ticks |
| `Clint.NoDrift` | emulator/src/device/clint.c:146-153 | for nondecreasing host times at any polling cadence mtime advances in total by floor((t_n - prev_0) / 10) mod 2^64 and the carried remainder is 0 to 9 ns |
| `Clint.Timer.constructor` | emulator/src/device/clint.c:21-33 | the timer starts at 0 with the comparator at its maximum |
| `Clint.Timer.MtimeTick` | emulator/src/device/clint.c:146-153 | one poll in place, with C's truncating division |
| `Clint.ReadsBack` | emulator/src/device/clint.c:35-141 | a written mtime or mtimecmp reads back whole and as its two halves, msip its lowest bit; the other registers and rejected writes change nothing |
| `Clint.ComparatorStays` | emulator/src/device/clint.c:35-141 | over any polls and other stores the comparator reads as last written |
| `Clint.TimeGoesOn` | emulator/src/device/clint.c:35-153 | over any polls and other stores mtime reads as last written plus the whole ticks accounted for since, modulo 2^64 |
| `Clint.LinesExact` | emulator/src/device/clint.c:35-165 | the timer line is high iff mtime has reached mtimecmp, the software line iff msip is set; offsets and sizes of the registers |
| `Syscon.RequestsExact` | emulator/src/device/syscon.c:11-85 | over every run of writes from power-on: power-off and reboot stand iff a write of their command was accepted, the reset cause tells a reboot, and the control register reads 0 |
| `Syscon.CommandsExact` | emulator/src/device/syscon.c:23-85 | the value 1 asks for power-off, 2 for a reboot; any other is stored but reported as failed |
| `Memory.EncodeOfValue` | emulator/src/memory/memory.c:73-76 | bytes are recovered from their little-endian value |
| `Memory.ValueOfEncode` | emulator/src/memory/memory.c:89-92 | a value is recovered from its bytes |
| `Memory.ReadAfterWrites` | emulator/src/memory/memory.c:49-94 | after any mix of writes, byte k of a value read is the byte last written there; rejected writes change nothing |
| `Memory.ReadBack` | emulator/src/memory/memory.c:68-94 | a value is read back at its own size |
| `Memory.AccessExact` | emulator/src/memory/memory.c:49-66 | an access is accepted iff it has 1, 2, 4 or 8 bytes, is aligned to them and lies inside |
| `Memory.ByteExact` | emulator/src/memory/memory.c:89-92 | byte k of a stored number is its k-th lowest |
| `Memory.Ram.constructor` | emulator/src/memory/memory.c:21-34 | memory starts zeroed or poisoned |
| `Memory.Ram.Load` | emulator/src/memory/memory.c:68-78 | a load in place returns the bytes at the address, or is rejected by size, alignment or range |
| `Memory.Ram.Store` | emulator/src/memory/memory.c:84-94 | a store in place replaces exactly those bytes |
| `Bus.WindowsDisjoint` | platform/include/tinylinuxrv/addrmap.h:9-41 | no access of at least one byte lies in two windows |
| `Bus.MapExact` | platform/include/tinylinuxrv/addrmap.h:9-41 | which target an access goes to, by the addresses of the map |
| `Bus.ReadExact` | emulator/src/bus/bus.c:21-39 | what a read delivers and changes, target by target, by addresses |
| `Bus.DeviceWriteExact` | emulator/src/bus/bus.c:41-58 | what a write to syscon and CLINT changes and when it is accepted, by addresses |
| `Bus.ControllerWriteExact` | emulator/src/bus/bus.c:41-58 | the same for the PLIC |
| `Bus.UartWriteExact` | emulator/src/bus/bus.c:41-58 | the same for the UART |
| `Bus.MemoryWriteExact` | emulator/src/bus/bus.c:41-58 | the same for RAM; the boot ROM and addresses outside all windows refuse |
| `Bus.OrderIsIrrelevant` | emulator/src/bus/bus.c:21-58 | any order of the window tests routes every nonempty access the same way, to the one window that owns it |
| `Bus.EmptyAccessIsOrdered` | emulator/include/utils/address_range.h:8-14 | an access of no bytes where two windows meet is routed by the order |
| `Bus.ReadEffectExact` | emulator/src/bus/bus.c:21-39 | the only reads with an effect are two UART bytes and the 4-byte claim registers |
| `Bus.DoubleReadIsPure` | emulator/src/bus/bus.c:21-39 | an 8-byte read leaves all devices and memory unchanged |
| `Bus.WritesAreLocal` | emulator/src/bus/bus.c:41-58 | a write is seen by 8-byte reads only in its own window, which is the CLINT's or RAM, and only where the bytes overlap |
| `Bus.StoreKeepsCoherence` | emulator/src/bus/bus.c:41-58 | a store, to any device or memory, that overlaps no page-table word of a cached walk keeps a TLB coherent |
| `Bus.BusUnit.constructor` | emulator/src/device/device.c:25-76 | every device starts in its reset state, memory in its initial content |
| `Bus.BusUnit.BusRead` | emulator/src/bus/bus.c:21-39 | the chain of tests reads from the owning target, with its effect, or fails |
| `Bus.BusUnit.BusWrite` | emulator/src/bus/bus.c:41-58 | the chain of tests writes to the owning target, or fails |
| `Bus.BusUnit.FindLeaf` | emulator/src/cpu/mmu.c:276-309 | the page walk made over the bus is the specified search of the machine's memory and leaves the machine unchanged |

## Left out

- The RTL pipeline, the skid buffer and the RTL decoder: their interfaces are unfinished in the source.
- Host I/O, loading of images, the command line, tracing and logging, and all guest software.
- `cpu_step` takes instruction operands, computed results, jump targets and branch outcomes as given values of the
  instruction; the arithmetic of the base integer instructions would only add easy members.
- satp, misa, the counters and the trap registers are kept as numbers in the object of module CsrFile; the registers
  whose single bits matter are kept as packed bits there.
- `Processor.Unit.Step`: the hit and miss counters of the TLBs, the trace flags and the halted flag are not part of its
  value; whether the bus accepts an access, and the data it delivers, are inputs of each step. Module System takes them,
  the interrupt lines and the clock from the machine.
- `Processor.Unit.Dispatch`: operand values, computed results, jump targets and branch outcomes are inputs, as said
  above.
- `System.TlbsAreInvisible`: decoding, the number brought to rd and the number stored are arbitrary functions of the
  state, the instruction word, what was loaded and, for the second, the clock and the lines sampled by the step. A run
  may go on after a power-off, with which the loop of the source ends.
- `System.HarmlessIsKept`: mtime changes by itself, so a page table made of it is shut out here;
  `System.KeptIsInvisible` and `System.FencedIsInvisible` have no such exception.
- Software that uses an address after changing its leaf and before fencing: the code does not promise that the two
  processors agree then; what does hold is `Hart.EntriesAreRecent`, `Hart.LookupIsRecentWalk` and `System.ReachableOk`.
- The PLIC is modelled for up to 32 sources, one register word; the source has 11. Its unused claim field is omitted.
- The UART's transmitter output and its base address.
- The fields that hold the CLINT's interrupt outputs; the lines are functions of its registers.
- The boot ROM's content, which the source does not initialize; writes to it fail.
- Memory is always present in the model: allocation failures are not modelled.
- The multiplier holds its signed registers as integers; the RTL's widths are wide enough for every product.
- `PatternTable.Listed`: the names of the 98 entries are comments; the constants' names in the generated header are not
  part of the model.
