# A verified model of hikami's guest address space and trap path

hikami is a type-1 hypervisor for the RISC-V H extension. This project models, in Dafny, the parts of it
that decide what a guest can see:

- **The G-stage page table.** `generate_page_table` builds an Sv39x4 tree in place, over any number of
  calls, and `trans_addr` walks it in software. The tree of tables is related to what the hardware would
  read out of it, and that to a plain overlay of guest ranges on host ranges.
- **Two-stage translation.** The Sv39 and Sv57 walkers, which send each table base through the G-stage.
- **Booting a guest.** Device tree, ELF segments, filling of RAM and the device map, in the order of
  `vsmode_setup`, down to the bytes the guest reads.
- **The emulated shadow stack** (Zicfiss), over whole runs of pushes and checked pops through both stages,
  with guest stores and other traps in between.
- **The emulated PLIC and the trap path**: entry, handlers with their locks, exit, over whole runs in which
  the guest may change its registers, CSRs and memory between traps.

Files, bottom up: `Bits` (shifts and masks as arithmetic), `PageTable` (entries and levels), `Reassembly`
(address fields and leaf branches), `GStageTree` (the tree as a value, the hardware's walk, its
invariant), `MemoryMaps` (requests and overlays), `Csrs`, `Sv39x4` (class `HostMemory`: builder, walker,
heap), `Builder` (any list of builder calls), `TwoStage`, `GuestMemory` and `GuestLoader` (runs of guest pages), `Boot` and `BootTheorems`,
`ShadowStack` and `ShadowStackRuns`, `Plic` and `PlicRuns`, `TrapSpec`, `TrapTheorems` and
`TrapShadowStack` (traps as functions and what they keep), `TrapInstructions` (what the guest sees of each
emulated instruction), `BootedShadowStack` (from boot to runs), `Hart`
(class `Hart`: the trap path itself).

How the model is set up:

- Host memory is typed: page tables by address, guest frames by address, and a heap of free page-aligned
  pages in an arbitrary order, none of them one of the four pages of the root table (memory.x,
  lines 48 to 58, keeps heap and root apart). The code needs table allocations to be page aligned and does not ask for
  it; `PointerRoundTrip` shows that this is exactly what it needs.
- The images that boot copies from (the device tree blob and the ELF in the initrd) are a read-only part
  of host memory, apart from the heap.
- Guest-physical addresses are counted in 4 KiB pages, of which Sv39x4 has 2^29.
- Words are natural numbers; shifts, masks, `|`, `&` and `!` are defined bit by bit in `Bits`, with 64-bit
  wrap-around of `<<`. Overflow of `+` and `-` on addresses counts as a panic, as in a development build.
- A builder call ends in an `Outcome`. `LeafAsTable` is not an outcome of the source: it stands for the
  write through a leaf that the source takes for a table pointer, and the contracts say exactly when it
  happens. Large pages over small ones are allowed, and leave unreachable tables behind.
- `WildTable`, and after it `GStageFault` and one case of `Stuck`, are no outcomes of the source either. On an
  unmapped address the G-stage walker takes an empty entry for a pointer and reads host memory at address 0
  unchecked; what it then does, or returns, is not modelled, only that it gets there.
- The builder is asked for permissions that the G-stage accepts (valid, open to user accesses, no write
  without read), guest ranges below 2^41 and host ranges below 2^56 (`Mappable`); every caller in the
  repository passes such permissions, and `EntryLegal` shows that all a booted guest finds are such.
- The words read by the VS-stage walkers and written by the guest and its shadow stack are a function on
  host addresses; the G-stage tables are separate from it. `TableReachable` says when this is right: a
  booted guest reaches a byte of a table if and only if a device map covers its page. What it reaches as
  RAM lies in its own frames and in no table (`RamInFrames`).
- Locks are booleans; a lock taken while held is the outcome `Deadlocked`.

Where a property one would expect is false of the code, the code is kept and the exact condition is
proved:

- The builder meets the overlay only if no page is mapped inside a larger leaf (`GeneratePageTable`,
  `SmallInsideLargeStops`). Over 4 KiB leaves, as at boot, it writes through a leaf exactly when a range
  reaches into an earlier one of a larger page size (`BlockedExactly`); the page loops never do
  (`SmallNeverObstructs`), the device map may (`VsmodeSetup`).
- A loaded page keeps frame, contents and permissions through booting exactly when no device map covers it
  (`RamSurvives`); with the initrd
  region of guest_image/host.dts the guest's entry page does not (`HostInitrdReplacesEntry`).
- Boot maps no page twice exactly when segments are disjoint and, with a device tree, something was
  loaded (`BootRunsDisjoint`); and every PLIC context register traps exactly when something was loaded
  (`ContextRegistersTrap`).
- The software walks agree with the hardware exactly on paths of legal entries (`ArchAgreement`,
  `InvalidLeafFollowed`).
- Trap entry does not save x0 and sp. Emulated loads to sp are dropped (`LoadDelivers`); stores and CSR
  accesses take x0 and sp from slots left by earlier traps (`StoreSends`, `CsrAccess`). So a store of x0 can
  send an interrupt number (`StaleZeroSent`), and reading ssp after writing it changes it
  (`ReadAfterWriteCorrupts`).
- A demand-paged shadow stack works under Sv57 only: where no leaf is mapped the Sv57 walk fails and the guest
  gets a page fault (`ErrExactly`, `FaultTrap`), the Sv39 walk panics (`ErrExactly`, `PanicExactly`).
- Raised exceptions keep SPIE where the architecture would clear it (`RaisedStatus`). Forwarded ones set
  neither vsstatus nor the mode of the handler (`ForwardedStatus`).
- A shadow-stack instruction that raises an exception has moved ssp, unless it is a pop whose slot faults
  (`RaisedMovesSsp`); so a push tried again after its fault lands one slot too low (`RetriedPush`).
- Every interrupt claimed is completed at the hardware, at every point of a run, exactly when each delivery
  is completed before the next and each completion carries the number claimed (`Conservation`); the
  emulation checks neither (`WrongCompletion`, `Overwritten`).
- PLIC context 16 passes the bound check and crashes (`ReadCrashes`, `WriteCrashes`); a fault the PLIC
  rejects deadlocks (`DeadlockExactly`); the threshold register reads as the claim (`ThresholdReadsClaim`);
  completing another context drops a raised interrupt
  (`LosesRaised`).

## Model

| member | source | states |
|---|---|---|
| PageTable.DecodeMeaning | src/memmap/page_table.rs:85-102 | on every entry, the bit tests for leaf, created and page number agree with the architecture's layout |
| PageTable.EncodeRoundTrip | src/memmap/page_table.rs:80-82 | an encoded entry gives back its page number and each of its flags |
| PageTable.PointerRoundTrip | src/memmap/page_table.rs:108-119 | a table pointer decodes to the allocated address if and only if that address is page aligned |
| Reassembly.Leaf3Meaning | src/memmap/page_table/sv39x4.rs:175-206 | at every level the shift-and-or of entry and address fields is the leaf base plus the address modulo the page size, and the alignment asserts fail exactly on misaligned superpages (the Sv39 branches are the same) |
| Reassembly.Leaf5Meaning | src/memmap/page_table/sv57.rs:70-163 | the same for the five Sv57 branches |
| GStageTree.OneParent | src/memmap/page_table/sv39x4.rs:133-148 | no table is pointed to by two entries, pointers lead exactly one level down, and never to the root |
| GStageTree.LeafWriteInv | src/memmap/page_table/sv39x4.rs:124-130 | writing an aligned leaf keeps the tree's shape, giving up only the nodes below that entry |
| GStageTree.LeafWrite | src/memmap/page_table/sv39x4.rs:124-130 | and changes the translation of exactly the pages of that slot |
| GStageTree.HangTable | src/memmap/page_table/sv39x4.rs:137-148 | hanging a zeroed table below an empty entry keeps the shape and changes no translation |
| GStageTree.LargerLeafCoversSlot | src/memmap/page_table/sv39x4.rs:112-149 | a leaf larger than the page size in use translates all pages of a slot or none, so checking a slot's first page is enough |
| MemoryMaps.OverlayLast | src/memmap/page_table/sv39x4.rs:91-151 | a page covered by a range and by none later has the translation that range asks for |
| MemoryMaps.OverlayConcat | src/memmap/page_table/sv39x4.rs:91-151 | mapping in two lists is mapping in one |
| MemoryMaps.LevelForLargest | src/memmap/page_table/sv39x4.rs:94-100 | the page size chosen for a range is the largest of 4 KiB, 2 MiB and 1 GiB not above its length, or else 4 KiB |
| MemoryMaps.CallsCompose | src/memmap/page_table/sv39x4.rs:79-152 | a second builder call acts, page by page, as one call with both lists of ranges in order |
| MemoryMaps.DisjointRangesTranslate | src/memmap/page_table/sv39x4.rs:79-212 | with disjoint rounded-up ranges, every address of every range translates to host start plus offset |
| MemoryMaps.UncoveredTranslates | src/memmap/page_table/sv39x4.rs:95-149 | an address outside all ranges translates as before |
| MemoryMaps.BlockedExactly | src/memmap/page_table/sv39x4.rs:91-149 | over a tree of 4 KiB leaves, some range meets a larger leaf if and only if it reaches into an earlier range of a larger page size |
| MemoryMaps.DisjointNeverBlocked | src/memmap/page_table/sv39x4.rs:91-149 | disjoint ranges over an unmapped tree never meet a leaf where a table is needed |
| Sv39x4.VpnMeaning | src/memmap/page_table/sv39x4.rs:52-59 | the masked index fields are the page-number digits of the address |
| Sv39x4.HostMemory.InitializePageTable | src/memmap/page_table/sv39x4.rs:63-73 | afterwards the tree is well formed and nothing is mapped |
| Sv39x4.HostMemory.MapPage | src/memmap/page_table/sv39x4.rs:107-149 | one page of the chosen size is installed and nothing else changes; a leaf is taken for a table if and only if a larger leaf already translates the page |
| Sv39x4.HostMemory.MapRange | src/memmap/page_table/sv39x4.rs:91-150 | exactly the range rounded up to the chosen page size is mapped, linearly, in leaves of the largest size not above its length; a range is refused by its first failing assert, and an accepted one can fail only for want of memory or at a larger leaf |
| Sv39x4.HostMemory.GeneratePageTable | src/memmap/page_table/sv39x4.rs:79-152 | on success the address space is the overlay of all ranges, last one first, over the old one, each page in leaves of the largest size not above the length of the last range over it; every failure names its cause |
| Sv39x4.SmallInsideLargeStops | src/memmap/page_table/sv39x4.rs:132-136 | a concrete request list on which the builder cannot finish from any state: it reaches the leaf, unless it stops before |
| Builder.BuildAndTranslate | src/memmap/page_table/sv39x4.rs:63-212 | from a zeroed root, after any list of calls with disjoint rounded-up ranges, no leaf was taken for a table, and the software walk returns host start plus offset for every address of every range and no address outside them |
| Sv39x4.HostMemory.TransAddr | src/memmap/page_table/sv39x4.rs:156-212 | on a well-formed tree the software walk returns the hardware's translation of every mapped address and fires no alignment assert; on an unmapped one it leaves the tree for a wild read, or panics |
| Sv39x4.HostMemory.AllocBlock | src/main.rs:80-89 | a fresh aligned frame that is no other frame and has no byte in common with a table, or an exhausted heap |
| Sv39x4.HostLayout | memory.x:48-58 | tables (the root with its four pages), guest frames and free pages share no byte of host memory |
| Csrs.HgatpRoundTrip | src/h_extension/csrs.rs:416-445 | mode and page number written to hgatp are read back |
| Csrs.FieldsOf | src/h_extension/csrs.rs:442-444 | the layout of hgatp: mode from bit 60, VMID from bit 44, page number below |
| TwoStage.BaseStep | src/memmap/page_table.rs:127-130 | reading an entry at the translated table base is reading it at its own translated address |
| TwoStage.Sv39TransAddr | src/memmap/page_table/sv39.rs:52-101 | the loop computes the reference walk that G-translates every entry address, panics included |
| TwoStage.Sv57TransAddr | src/memmap/page_table/sv57.rs:55-169 | the same for five levels, with `Err` where no leaf is found |
| TwoStage.VsStageTransAddr | src/memmap/page_table.rs:155-165 | dispatch on the mode of vsatp |
| TwoStage.VsDispatch | src/memmap/page_table.rs:155-165 | mode number 8 in the top bits of vsatp selects the Sv39 walk, 10 the Sv57 walk, any other panics; both start at the page in its low 44 bits |
| TwoStage.ErrExactly | src/memmap/page_table/sv57.rs:168 | a translation is an `Err` if and only if the mode is Sv57 and every entry on the path is mapped and none a leaf; under Sv39 that path, and no other, ends in the `unreachable!()` |
| TwoStage.FiveTablesNoLeaf | src/memmap/page_table/sv57.rs:60-168 | in particular with five entries at their translated addresses, each leading to the next, and no R, W or X in any |
| TwoStage.ArchAgreement | src/memmap/page_table/sv57.rs:60-169 | the hardware's walk succeeds if and only if the software walk does and every entry read is valid, in range and without reserved bits or encodings, and then with the same address |
| TwoStage.InvalidLeafFollowed | src/memmap/page_table.rs:85-92 | from any vsatp of a supported mode, the software walk follows a root entry whose valid bit is clear as a leaf, whatever else is in memory; the hardware translates no address under it |
| GuestMemory.MapRun | src/guest.rs:213-233 | the allocate, copy and map loop backs each page of the run by a new frame with the right contents, changes no other page, shares no frame, wastes none on vacant pages and keeps all leaves small; a failure names its cause, a larger leaf over one of its pages among them |
| GuestMemory.SmallNeverObstructs | src/guest.rs:213-233 | over small leaves no page loop writes through a leaf |
| GuestMemory.PrivateStep | src/guest.rs:170-205 | mapping a fresh frame keeps distinct pages on distinct frames |
| GuestLoader.AlignSizeMeaning | src/guest.rs:153-154 | for powers of two the mask expression is the least multiple of the alignment not below the size |
| GuestLoader.SegmentPermissions | src/guest.rs:191-202 | which segment flags are accepted and the permissions they get |
| GuestLoader.PlannedConcat | src/guest.rs:157-207 | running page loops one after another plans each page by the last loop over it |
| GuestLoader.MapGuestDtb | src/guest.rs:66-107 | the device tree's pages are built at the hart's slot; a failure names its cause |
| GuestLoader.DtbInSlot | src/memmap/constant.rs:39-48 | every hart's device tree stays inside its own slot and below all guest RAM |
| BootTheorems.GuestsApart | src/memmap/constant.rs:39-48 | guest regions of 256 MiB follow each other from 0x9000_0000, device trees of 8 KiB from 0x8000_0000 below them |
| GuestLoader.LoadGuestElf | src/guest.rs:141-210 | the address space after loading is planned by the segments, the last one over a page winning; the returned end is the end of the last loaded page; each panic and each failure names its segment and cause |
| GuestLoader.FillingMemoryRegion | src/guest.rs:213-233 | the pages from start to end are backed by new frames and no other page changes; a failure names its cause |
| Boot.VsmodeSetup | src/hypervisor_init.rs:92-144 | after booting, RAM is what the three page loops built from an empty tree, with private frames that share no byte with a table, devices are overlaid on it with none reaching into an earlier, larger one, and hgatp is mode 8 with the page number of the root; a boot that stops names its cause, and a leaf is written through only by the device map and only for such a pair |
| BootTheorems.RamSurvives | src/hypervisor_init.rs:126-140 | a planned guest page still has its frame at entry if and only if no device map covers it or the frame lies at the page's own address, and frame, contents and permissions if and only if no device map covers it |
| BootTheorems.LoadedByte | src/guest.rs:157-207 | byte k of every segment is what the guest reads at its address, after all later loading, filling and mapping |
| BootTheorems.DtbByte | src/guest.rs:79-104 | byte k of the device tree is what the guest reads at its slot |
| BootTheorems.SegmentCovers | src/guest.rs:164-166 | the step loop visits exactly the aligned size, so every byte of the segment is loaded |
| BootTheorems.BootRunsDisjoint | src/guest.rs:155-168 | boot maps no page twice if and only if segments are disjoint and, unless the device tree is empty, a page was loaded |
| GuestLoader.EndOfAligned | src/guest.rs:168 | the end of the loaded pages is page aligned, so filling starts on a page |
| BootTheorems.RamMapped | src/guest.rs:141-233 | the mapped RAM is exactly the pages of the loops |
| BootTheorems.RegionMapped | src/hypervisor_init.rs:130-133 | without gaps between segments the guest's whole region is mapped |
| BootTheorems.FrameCount | src/guest.rs:79-104 | as many frames are taken as pages are mapped, no two pages share one, and none has a byte in common with a table |
| BootTheorems.RamInFrames | src/hypervisor_init.rs:126-140 | every guest address of RAM lies in one of the guest's frames, at the same offset, and is no byte of a table |
| BootTheorems.TableReachable | src/hypervisor_init.rs:126-140 | over all guest-physical addresses, a byte of a page table is within the guest's reach if and only if a device map covers its page |
| BootTheorems.RamInjective | src/hypervisor_init.rs:126-140 | distinct guest addresses of RAM are distinct host addresses |
| BootTheorems.PlicSplit | src/device/plic.rs:156-165 | the pass-through ends exactly at the first context register |
| BootTheorems.ContextRegistersTrap | src/device/plic.rs:156-165 | after a boot every access to a PLIC context register traps if and only if some page was loaded; otherwise RAM is filled in over the registers |
| BootTheorems.DeviceAddressIdentity | src/device.rs:121-147 | every address under a device map translates to itself |
| BootTheorems.EveryDeviceReachable | src/device.rs:128-147 | every device but the PLIC is translated to itself over its whole region, whatever else was mapped |
| BootTheorems.PlicReachable | src/device/plic.rs:156-165 | so is every register of the PLIC below its contexts, 2 MiB from its base |
| BootTheorems.HostPciReachable | guest_image/host.dts:203 | the 256 MiB of this PCI region are accepted, mapped in 2 MiB pages and translated to themselves |
| BootTheorems.EntryExecutable | src/guest.rs:79-233 | a mapped page is executable at entry if and only if no device map covers it and the last page loop over it, not that of the device tree, makes it so |
| BootTheorems.FilledPermissions | src/guest.rs:213-233 | every page from the end of what was loaded to the end of the region, outside device maps, is readable, writable and executable at entry |
| BootTheorems.SegmentPagePermissions | src/guest.rs:191-202 | every page of a loaded segment, outside device maps, is readable at entry, and writable and executable if and only if the segment is not read-only |
| BootTheorems.DtbPermissions | src/guest.rs:79-104 | the device tree's pages, outside device maps, are readable and writable and not executable at entry |
| BootTheorems.DevicePermissions | src/device.rs:18-19 | every page under a device map is readable and writable and not executable at entry |
| BootTheorems.EntryLegal | src/device.rs:18-19 | every page mapped at entry has permissions the G-stage accepts, and A and D set if and only if no device map covers it |
| BootTheorems.HostInitrdReplacesEntry | guest_image/host.dts:93-94 | with this initrd region the guest's entry address translates to itself, not to the loaded page |
| ShadowStack.Zicfiss.SspHpPtr | src/emulate_extension/zicfiss.rs:48-59 | the pointer is the two-stage translation of ssp, or the store fault of a failed Sv57 walk |
| ShadowStack.Zicfiss.SsPush | src/emulate_extension/zicfiss.rs:62-69 | the push step: ssp moves first, then the store or the fault |
| ShadowStack.Zicfiss.PopChecked | src/emulate_extension/zicfiss.rs:119-145 | the pop step: read, move ssp, then compare |
| ShadowStack.Zicfiss.Instruction | src/emulate_extension/zicfiss.rs:99-156 | each form does the stack step on its operand register when enabled, nothing when disabled; SSRDP returns ssp or 0 |
| ShadowStack.RaisedMovesSsp | src/emulate_extension/zicfiss.rs:62-145 | an instruction that raises leaves memory alone, and ssp if and only if it is a pop whose slot faults |
| ShadowStackRuns.WalkDependsOn | src/memmap/page_table/sv57.rs:60-166 | a walk depends only on the entries it reads |
| ShadowStackRuns.RunRefines | src/emulate_extension/zicfiss.rs:62-145 | over any run of pushes, checked pops and guest stores that leave the live cells and their translation alone, matching or not, the shadow stack has the effects and the contents of a list |
| ShadowStackRuns.NestedCallsPass | src/emulate_extension/zicfiss.rs:107-145 | well-nested calls and returns, with any other stores in their bodies, never raise and leave ssp and the values below as they were |
| ShadowStackRuns.ChangedReturnRaises | src/emulate_extension/zicfiss.rs:123-130 | a return to any other address raises cause 18 with value 3, whatever calls and stores lie in between |
| ShadowStackRuns.RetriedPush | src/emulate_extension/zicfiss.rs:62-69 | a push tried again after its store fault stores one slot below the one that faulted |
| Plic.Device.DeliverExternal | src/trap/hypervisor_supervisor/interrupt.rs:30-44 | delivery stores the claimed interrupt for the supervisor context and raises the guest's external interrupt |
| Plic.Device.EmulateRead | src/device/plic.rs:63-79 | reads return the context's claim, an error, or crash |
| Plic.Device.EmulateWrite | src/device/plic.rs:82-127 | writes are forwarded, and at a claim register complete the context and clear hvip |
| Plic.Mailbox | src/device/plic.rs:55-60 | the claim register of context c, at offset 0x20_0004 + 0x1000 c, reads and completes its own context only, and reaches its own hardware register |
| Plic.ThresholdReadsClaim | src/device/plic.rs:63-69 | every address of a context's page reads as its claim, so a threshold just stored is read back if and only if it equals the claim |
| Plic.ReadCrashes | src/device/plic.rs:63-70 | reads crash exactly in the page after the last context |
| Plic.WriteCrashes | src/device/plic.rs:100-109 | writes crash exactly at claim registers past the last context, after the device was written |
| PlicRuns.ClaimIsPending | src/device/plic.rs:55-127 | over any run, claim reads return the interrupt last delivered until it is completed, and 0 after |
| PlicRuns.PendingIsRaised | src/trap/hypervisor_supervisor/interrupt.rs:36-43 | while the guest completes only its own context, a pending claim is raised and other contexts are untouched |
| PlicRuns.LosesRaised | src/device/plic.rs:106-107 | an event takes the raised bit from a pending claim exactly when it completes another context |
| PlicRuns.Conservation | src/device/plic.rs:55-127 | at every point of a run the values sent to the hardware's claim register, with the interrupt still pending, are the interrupts claimed, if and only if a completion lies between any two deliveries and each completion carries the pending interrupt |
| PlicRuns.WrongCompletion | src/device/plic.rs:101-107 | completing with another number clears the claim, sends the hardware that number, and leaves the interrupt uncompleted |
| PlicRuns.Overwritten | src/trap/hypervisor_supervisor/interrupt.rs:35-41 | a second delivery replaces the first, which is then never completed |
| TrapTheorems.PcExactlyOnce | src/trap/hypervisor_supervisor/exception.rs:23-104 | every resumed trap either advances past the instruction, by 2 bytes if it is compressed and else by 4, and leaves the trap CSRs, or records the old counter and goes to the trap vector with the right cause, a forwarded one with all status as it was; an interrupt makes its pending bit visible and changes nothing else |
| TrapTheorems.RegistersKept | src/trap/hypervisor_supervisor.rs:111-150 | entry and exit restore every register but the destination; sp always |
| TrapTheorems.LoadDelivers | src/trap/hypervisor_supervisor/exception/page_fault_handler.rs:32-36 | an emulated load delivers as the architecture does if and only if its destination is not sp |
| TrapTheorems.StoreSends | src/trap/hypervisor_supervisor/exception/page_fault_handler.rs:56-57 | the device is sent the guest's own value if and only if the address is forwarded, the value fits 32 bits, and the source register is a saved one or its stale slot agrees |
| TrapTheorems.StaleZeroSent | src/trap/hypervisor_supervisor/exception/page_fault_handler.rs:32-57 | after an emulated load into x0, an emulated store of x0 sends the loaded claim |
| TrapTheorems.RaisedStatus | src/emulate_extension.rs:74-87 | vsstatus is the architecture's after a raised exception if and only if SPIE was not set while SIE was clear |
| TrapTheorems.ForwardedStatus | src/trap/hypervisor_supervisor/exception.rs:23-37 | a forwarded exception leaves the architecture's vsstatus and mode if and only if the guest was in supervisor mode with SIE and SPIE clear and SPP set |
| TrapTheorems.RaisedToSupervisor | src/emulate_extension.rs:88 | the saved sstatus changes in bit 8 only, which is set |
| TrapTheorems.CsrUpdateBits | src/emulate_extension.rs:34-48 | write, set and clear of an emulated CSR, bit by bit |
| TrapTheorems.CsrAccess | src/emulate_extension/zicfiss.rs:168-195 | the old ssp goes to the destination unless that is sp; ssp is updated from the guest's operand if and only if the operand register is saved or the stale slot gives the same update |
| TrapTheorems.ReadAfterWriteCorrupts | src/emulate_extension/zicfiss.rs:168-177 | writing ssp and then reading it leaves the union of new and old value, which is the new one if and only if it contains all bits of the old |
| TrapTheorems.EcallReturns | src/trap/hypervisor_supervisor/exception.rs:65-66 | error and value end up in a0 and a1, and nothing else changes |
| TrapTheorems.DeadlockExactly | src/trap/hypervisor_supervisor/exception/page_fault_handler.rs:24-74 | a trap deadlocks if and only if the PLIC rejects the faulting access, a condition on its address |
| TrapTheorems.PanicExactly | src/trap/hypervisor_supervisor/exception.rs:40-104 | a trap stops the hypervisor if and only if its cause or call is unsupported, the instruction is SSAMOSWAP or an enabled push or pop whose slot has no place, or the access is below the PLIC, of context 16, or wider than 32 bits |
| TrapTheorems.RunNeverDeadlocks | src/trap/hypervisor_supervisor/exception/page_fault_handler.rs:24-74 | a run without rejected accesses never deadlocks |
| TrapTheorems.RunPlic | src/trap/hypervisor_supervisor/exception.rs:82-104 | over any run of traps the PLIC goes through exactly the run's events |
| TrapTheorems.ClaimLoad | src/trap/hypervisor_supervisor/exception/page_fault_handler.rs:15-43 | after any run of traps a guest load from its claim register receives the pending interrupt, and nothing else changes |
| TrapTheorems.InterruptsAccounted | src/trap/hypervisor_supervisor/exception/page_fault_handler.rs:15-74 | after any run of traps with completions in time and in kind, the hardware was sent every interrupt claimed but the pending one |
| TrapShadowStack.TrapIsStep | src/trap/hypervisor_supervisor/exception/instruction_handler.rs:16-46 | a trapped shadow-stack instruction does the stack step and resumes after it or at the exception |
| TrapInstructions.PushTrap | src/emulate_extension/zicfiss.rs:107-118 | SSPUSH and C.SSPUSH lower ssp by 8 and store rs2, respectively rd, at its two-stage translation; nothing else changes |
| TrapInstructions.PopTrap | src/emulate_extension/zicfiss.rs:119-145 | SSPOPCHK and C.SSPOPCHK raise ssp by 8 and leave memory; the guest goes on if and only if the word is rs1, respectively rd, and else gets cause 18 with value 3 |
| TrapInstructions.FaultTrap | src/emulate_extension/zicfiss.rs:48-59 | under Sv57, a push or pop of a slot with no leaf mapped gives the guest cause 15 with the address of the slot, ssp left at the slot |
| TrapInstructions.OffTrap | src/emulate_extension/zicfiss.rs:85-93 | with SSE of the trapping mode clear (henvcfg for SPP set, senvcfg else) a push or pop does nothing |
| TrapInstructions.ReadPointerTrap | src/emulate_extension/zicfiss.rs:146-152 | SSRDP delivers ssp, or 0 when disabled, if and only if its destination is not sp |
| TrapInstructions.ImmediateCsr | src/emulate_extension/zicfiss.rs:184-195 | the immediate forms update ssp from the immediate, whatever earlier traps left behind |
| TrapShadowStack.QuietTrap | src/trap/hypervisor_supervisor/exception.rs:82-104 | a trap for another reason resumes the guest and leaves ssp and guest memory alone |
| TrapShadowStack.NestedCallsThroughTraps | src/trap/hypervisor_supervisor/exception/instruction_handler.rs:16-46 | a guest that calls and returns in nested fashion, storing elsewhere and trapping for other reasons as it likes, is resumed right after every push and pop, gets no exception and its ssp back |
| TrapShadowStack.WrongReturnThroughTraps | src/emulate_extension/zicfiss.rs:119-145 | after any such run, a return to anything but the address on top takes the guest to its trap vector with cause 18 and value 3 |
| BootedShadowStack.BootedArea | src/emulate_extension/zicfiss.rs:48-59 | in a booted guest, slots that are distinct in guest-physical RAM and apart from their own page-table entries have distinct host cells apart from those entries |
| BootedShadowStack.CellsInFrames | src/emulate_extension/zicfiss.rs:62-69 | all eight bytes of every slot of such a stack lie in one guest frame and in no page table, so no push writes one |
| BootedShadowStack.BootedNestedCalls | src/trap/hypervisor_supervisor/exception/instruction_handler.rs:16-46 | from boot to run: a guest with its stack in such slots calls and returns without a shadow-stack exception |
| HartModel.Hart.constructor | src/hypervisor_init.rs:196-267 | guest entry leaves sscratch at the stack top, locks free, and the guest in the prepared context with hart id and device tree in a0 and a1 |
| HartModel.Hart.TrapVector | src/trap/hypervisor_supervisor.rs:101-151 | entry saves the guest's context below the stack top and its sp in sscratch |
| HartModel.Hart.TrapExit | src/trap/hypervisor_supervisor.rs:19-83 | exit restores the context and puts sscratch back to the stack top, unless the lock is held |
| HartModel.Hart.HsForwardException | src/trap/hypervisor_supervisor/exception.rs:23-37 | forwards the exception, or spins if the lock is held |
| HartModel.Hart.PseudoVsException | src/emulate_extension.rs:61-95 | raises the exception in the guest |
| HartModel.Hart.LoadGuestPageFault | src/trap/hypervisor_supervisor/exception/page_fault_handler.rs:15-43 | the emulated load; the error path finds its own lock taken |
| HartModel.Hart.StoreGuestPageFault | src/trap/hypervisor_supervisor/exception/page_fault_handler.rs:46-74 | the emulated store, likewise |
| HartModel.Hart.IllegalInstruction | src/trap/hypervisor_supervisor/exception/instruction_handler.rs:16-46 | the emulated instruction with both locks free again on every exit that resumes |
| HartModel.Hart.HandleTrap | src/trap/hypervisor_supervisor.rs:101-163 | a whole trap does to guest and devices what the trap function says and leaves sscratch and locks as the next trap needs them |
| HartModel.Hart.RunTraps | src/trap/hypervisor_supervisor.rs:19-163 | any run of traps and guest execution, which may change registers, CSRs and memory, keeps that invariant and follows the run function |

## Left out

- Machine-mode setup, PMP, delegation and counter CSRs: straight-line configuration.
- UART, RTC, virtio, PCI and IOMMU drivers, and parsing of device trees and ELF files: their regions and program headers are inputs.
- SBI call handlers and remote fences: the values they return are inputs of the environment call.
- Instruction decoding: opcode, registers and length are inputs; `try_into` and decode failures of the foreign decoder are not modelled.
- senvcfg emulation and the virtual-instruction trap: `henv_sse` and `senv_sse` are arbitrary.
- `MemoryMap::new`: the fold of its flag list is written as a sum of distinct bits.
- Concurrency: one hart runs; locks matter only within a trap.
- BootTheorems.EveryDeviceReachable: device entries have A and D clear (`EntryLegal`); that the hardware sets them on access, and not faults, is taken for granted.
- Sv39x4.HostMemory.GeneratePageTable: permissions the G-stage rejects (no U, or write without read) are not asked of the builder, because no translation would come of them.
- Reversed ranges: their length overflows; requests with start above end are not represented.
- Boot.VsmodeSetup: says nothing about memory after a boot that stops. Where a device map is written through a leaf the source carries on, with memory damaged; the model stops there and states the only way to get there.
- GuestLoader.MapGuestDtb: the bytes copied past the end of the blob are whatever follows it in host memory, as in the source.
- TwoStage.ArchAgreement: compares the walks; the source makes none of the hardware's checks of permissions, of A and D, and of the upper bits of a guest-virtual address, and they are not part of the comparison; nor are extensions that use the entry bits from 54 up.
- ShadowStackRuns.RunRefines: is stated for aligned 8-byte slots that are mapped, distinct, and apart from the guest's own page-table entries for them (`BootedArea` gives this for booted RAM), while the guest stores neither to live slots nor to those entries; runs that fault are covered step by step by the instruction contracts, with `RaisedMovesSsp` and `RetriedPush`.
- TrapShadowStack.NestedCallsThroughTraps: CSR writes to ssp and changes of vsatp at a push or pop are outside such a run; CSR writes are covered by `CsrAccess`.
- TrapTheorems.PcExactlyOnce: the clearing of the hart's own timer-enable bit and of the CLINT's software-interrupt word, which the guest does not see, are not modelled.
- HartModel.Hart.IllegalInstruction: the momentary acquisition of the hypervisor lock to copy the context pointer is not a separate step.
