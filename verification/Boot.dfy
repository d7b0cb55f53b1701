/** The order in which `vsmode_setup` (src/hypervisor_init.rs) builds the guest's address space, the
    device map (src/device.rs), and what holds when the guest is entered. */
module Boot {
  import opened Bits
  import opened PageTable
  import opened GStageTree
  import opened MemoryMaps
  import opened Csrs
  import opened Sv39x4
  import opened GuestMemory
  import opened GuestLoader
  import Plic

  const DEVICE_FLAGS: nat := WRITE + READ + USER + VALID

  datatype Region = Region(base: nat, size: nat)

  datatype Devices = Devices(virtio: seq<Region>, uart: Region, initrd: Region, plic: Region, clint: Region,
                             pci: Region, rtc: Region, pciWindows: seq<Region>)

  function Identity(base: nat, size: nat): MemoryMap {
    Request(base, base + size, base, base + size, DEVICE_FLAGS)
  }

  function RegionMap(d: Region): MemoryMap {
    Identity(d.base, d.size)
  }

  /** `Plic::memmap`: only the registers below the contexts are passed through. */
  function PlicMap(plic: Region): MemoryMap {
    Identity(plic.base, Plic.CONTEXT_BASE)
  }

  function RegionMaps(ds: seq<Region>): (maps: seq<MemoryMap>)
    ensures |maps| == |ds| && forall i :: 0 <= i < |ds| ==> maps[i] == RegionMap(ds[i])
  {
    seq(|ds|, i requires 0 <= i < |ds| => RegionMap(ds[i]))
  }

  /** `create_device_map`. */
  function DeviceMaps(d: Devices): seq<MemoryMap> {
    RegionMaps(d.virtio)
    + [RegionMap(d.uart), RegionMap(d.initrd), PlicMap(d.plic), RegionMap(d.clint), RegionMap(d.pci), RegionMap(d.rtc)]
    + RegionMaps(d.pciWindows)
  }

  function GuestBegin(hartId: nat): nat {
    DRAM_BASE + (hartId + 1) * DRAM_SIZE_PER_GUEST
  }

  function GuestEnd(hartId: nat): nat {
    GuestBegin(hartId) + DRAM_SIZE_PER_GUEST
  }

  datatype GuestImage = GuestImage(dtbAddr: nat, dtbLen: nat, elfAddr: nat, segments: seq<Segment>)

  predicate ImageOk(image: GuestImage) {
    forall s <- image.segments :: SegmentOk(s)
  }

  function GuestRuns(hartId: nat, image: GuestImage): seq<Run>
    requires ImageOk(image)
  {
    ElfRuns(GuestBegin(hartId), image.elfAddr, image.segments)
  }

  /** All the runs of a boot: device tree, ELF segments, and the rest of the region. */
  function BootRuns(hartId: nat, image: GuestImage): seq<Run>
    requires ImageOk(image)
  {
    var elf := GuestRuns(hartId, image);
    [DtbRun(image.dtbAddr, image.dtbLen, hartId)] + elf + [FillRun(EndOf(elf), GuestEnd(hartId))]
  }

  /** How booting ends: running, with the value put into hgatp, or stopped. */
  datatype BootResult = Booted(entry: nat, dtb: nat, hgatp: nat) | LoadStopped(load: Load) | Stopped(outcome: Outcome)

  lemma FillOk(start: nat, end: nat)
    requires start <= PAGES * PAGE_SIZE && end + PAGE_SIZE <= PAGES * PAGE_SIZE
    ensures RunOk(FillRun(start, end))
  {
    assert ALL == 0xdf;
  }

  lemma BuiltConcat(root: nat, tables0: Tables, frames0: Frames, tables1: Tables, frames1: Frames, tables2: Tables,
                    frames2: Frames, rom: Rom, runs: seq<Run>, more: seq<Run>)
    requires Built(root, tables0, frames0, tables1, frames1, rom, runs)
    requires Built(root, tables1, frames1, tables2, frames2, rom, more)
    ensures Built(root, tables0, frames0, tables2, frames2, rom, runs + more)
  {
    hide View, Private, AllUsed, AllSmall, Planned, RunsDisjoint, Vacant;
    PlannedConcat(root, tables0, frames0, tables1, frames1, tables2, frames2, rom, runs, more);
    if RunsDisjoint(runs + more) && AllVacant(root, tables0, runs + more) {
      LaterVacant(root, tables0, frames0, tables1, frames1, rom, runs, more);
    }
  }

  lemma LaterVacant(root: nat, tables0: Tables, frames0: Frames, tables: Tables, frames: Frames, rom: Rom,
                    runs: seq<Run>, more: seq<Run>)
    requires Planned(root, tables0, frames0, tables, frames, rom, runs)
    requires RunsDisjoint(runs + more) && AllVacant(root, tables0, runs + more)
    ensures RunsDisjoint(runs) && AllVacant(root, tables0, runs)
    ensures RunsDisjoint(more) && AllVacant(root, tables, more)
  {
    hide View, PageOf, Backed, LastRun;
    var all := runs + more;
    assert forall i :: 0 <= i < |runs| ==> all[i] == runs[i];
    assert forall i :: 0 <= i < |more| ==> all[|runs| + i] == more[i];
    forall run, n: nat | run in more && n < PAGES && InRun(run, n)
      ensures View(root, tables, n) == None
    {
      assert LastRun(runs, n) == None;
      assert run in all;
    }
    assert forall r <- runs :: r in all;
  }

  /** The guest's address space at entry: RAM built by `runs` from an empty tree, devices mapped over it. */
  ghost predicate Ready(root: nat, ram: Tables, tables: Tables, frames: Frames, rom: Rom, runs: seq<Run>,
                        maps: seq<MemoryMap>)
  {
    && AlignedRuns(runs) && Planned(root, map[], map[], ram, frames, rom, runs)
    && Private(root, ram, frames) && (RunsDisjoint(runs) ==> AllUsed(root, ram, frames))
    && (forall f <- frames :: Outside(tables, f))
    && Overlaid(root, ram, tables, maps)
  }

  lemma ReadyFromBuilt(root: nat, zero: Tables, ram: Tables, tables: Tables, frames: Frames, rom: Rom,
                       runs: seq<Run>, maps: seq<MemoryMap>)
    requires forall n: nat :: n < PAGES ==> View(root, zero, n) == None
    requires Built(root, zero, map[], ram, frames, rom, runs)
    requires (forall f <- frames :: Outside(tables, f)) && Overlaid(root, ram, tables, maps)
    ensures Ready(root, ram, tables, frames, rom, runs, maps)
  {
    hide Overlaid, Backed, LastRun, InRun, RunsDisjoint;
    assert Private(root, zero, map[]) && AllUsed(root, zero, map[]) && AllVacant(root, zero, runs) by { hide View; }
    assert forall n: nat :: View(root, map[], n) == None;
  }

  /** Every run of the ELF comes from a loadable segment, and the other way round. */
  lemma {:induction false} ElfRunsFrom(dramBase: nat, elfAddr: nat, segments: seq<Segment>)
    requires forall s <- segments :: SegmentOk(s)
    ensures forall run <- ElfRuns(dramBase, elfAddr, segments) ::
              exists s <- segments :: && Loadable(s) && s.pType == 1 && s.pFilesz > 0
                                      && run == SegmentRun(dramBase, elfAddr, s)
    ensures forall s <- segments :: SegmentOk(s) && s.pType == 1 && s.pFilesz > 0 ==>
              Loadable(s) && SegmentRun(dramBase, elfAddr, s) in ElfRuns(dramBase, elfAddr, segments)
  {
    hide SegmentFlags, SegmentPages;
    if segments != [] {
      var init, last := segments[..|segments| - 1], segments[|segments| - 1];
      assert segments == init + [last];
      ElfRunsFrom(dramBase, elfAddr, init);
      forall run <- ElfRuns(dramBase, elfAddr, segments)
        ensures exists s <- segments :: && Loadable(s) && s.pType == 1 && s.pFilesz > 0
                                        && run == SegmentRun(dramBase, elfAddr, s)
      {
        if run in ElfRuns(dramBase, elfAddr, init) {
          var s :| s in init && Loadable(s) && run == SegmentRun(dramBase, elfAddr, s);
          assert s in segments;
        } else {
          assert last in segments;
        }
      }
    }
  }

  lemma EndBound(dramBase: nat, elfAddr: nat, segments: seq<Segment>)
    requires forall s <- segments :: SegmentOk(s) && (Loadable(s) ==> SegmentFits(dramBase, s))
    ensures EndOf(ElfRuns(dramBase, elfAddr, segments)) <= PAGES * PAGE_SIZE
  {
    hide SegmentFlags, SegmentPages, ElfRuns, EndOf;
    ElfRunsFrom(dramBase, elfAddr, segments);
  }

  lemma NothingIsSmall(root: nat, tables: Tables)
    requires forall n: nat :: n < PAGES ==> View(root, tables, n) == None
    ensures AllSmall(root, tables)
  {
    hide View;
  }

  lemma BuiltSmall(root: nat, tables0: Tables, frames0: Frames, tables: Tables, frames: Frames, rom: Rom,
                   runs: seq<Run>)
    requires Built(root, tables0, frames0, tables, frames, rom, runs)
    ensures AlignedRuns(runs) && (AllSmall(root, tables0) ==> AllSmall(root, tables))
  {
  }

  lemma DtbLoopOk(dtbAddr: nat, dtbLen: nat, hartId: nat)
    requires dtbLen < GUEST_DTB_SIZE_PER_HART && hartId < 8
    ensures RunOk(DtbRun(dtbAddr, dtbLen, hartId)) && DtbRun(dtbAddr, dtbLen, hartId).gpa % PAGE_SIZE == 0
  {
    DtbInSlot(dtbAddr, dtbLen, hartId);
  }

  lemma FillAligned(start: nat, end: nat)
    requires start % PAGE_SIZE == 0
    ensures FillRun(start, end).gpa % PAGE_SIZE == 0
  {
  }

  lemma RamStops(mem: HostMemory, o: Outcome, run: Run)
    requires RunFailure(mem, o, mem.root, map[], run)
    ensures o.RootMisaligned? ==> mem.root % 0x4000 != 0
    ensures o.OutOfMemory? ==> mem.free == []
  {
  }

  lemma HeapFacts(root: nat, free: seq<nat>, tables: Tables, frames: Frames)
    requires HeapInv(root, free, tables, frames)
    ensures TableAddress(root) && forall f <- frames :: Outside(tables, f)
  {
    HostLayout(root, free, tables, frames);
  }

  lemma HgatpForRoot(root: nat)
    requires TableAddress(root)
    ensures AtpPpn(HgatpSet(SV39X4, 0, Shr(root, 12))) * PAGE_SIZE == root
    ensures HgatpMode(HgatpSet(SV39X4, 0, Shr(root, 12))) == SV39X4
    ensures HgatpSet(SV39X4, 0, Shr(root, 12)) == 8 * 0x1000_0000_0000_0000 + root / 4096
  {
    hide HgatpSet, HgatpMode, AtpPpn;
    Pow2Table();
    FieldsOf(SV39X4, 0, root / PAGE_SIZE);
    HgatpRoundTrip(SV39X4, 0, root / PAGE_SIZE);
  }

  /** Why a boot stops. The page loops never write through a leaf; the device map does so exactly when a
      device reaches into an earlier one of a larger page size. */
  ghost predicate StopReason(mem: HostMemory, r: BootResult, hartId: nat, image: GuestImage, devices: Devices)
    reads mem
  {
    match r
    case Booted(_, _, _) => false
    case LoadStopped(load) =>
      (match load
       case Loaded(_, _) => false
       case AlignPanic => exists s <- image.segments :: Loadable(s) && s.pAlign < PAGE_SIZE
       case FlagsPanic => exists s <- image.segments :: Loadable(s) && SegmentFlags(s.pFlags).None?
       case Failed(o) =>
         !o.LeafAsTable? && LoadFailure(mem, o, mem.root, map[], GuestBegin(hartId), image.elfAddr, image.segments))
    case Stopped(o) =>
      (match o
       case Done => false
       case RootMisaligned => mem.root % 0x4000 != 0
       case OutOfMemory => mem.free == []
       case LeafAsTable => SmallInsideLarge(DeviceMaps(devices))
       case _ => exists m <- DeviceMaps(devices) :: o == Verdict(m))
  }

  /** Filling starts and ends on a page, so only the heap and the root can stop it. */
  lemma LoopFailure(mem: HostMemory, o: Outcome, root: nat, tables: Tables, run: Run)
    requires RunOk(run) && AllSmall(root, tables) && RunFailure(mem, o, root, tables, run)
    ensures !o.LeafAsTable? && RunFailure(mem, o, root, map[], run)
    ensures run.gpa % PAGE_SIZE == 0 ==> o.RootMisaligned? || o.OutOfMemory?
  {
    hide View, AllSmall;
    SmallNeverObstructs(mem, o, root, tables, run);
  }

  lemma LoadLoopFailure(mem: HostMemory, o: Outcome, root: nat, tables: Tables, dramBase: nat, elfAddr: nat,
                        segments: seq<Segment>)
    requires AllSmall(root, tables) && LoadFailure(mem, o, root, tables, dramBase, elfAddr, segments)
    requires forall s <- segments :: Loadable(s) ==> SegmentFits(dramBase, s)
    ensures !o.LeafAsTable? && LoadFailure(mem, o, root, map[], dramBase, elfAddr, segments)
  {
    hide AllSmall, RunFailure, SegmentPages, SegmentFlags;
    var s :| s in segments && SegmentOk(s) && Loadable(s)
             && RunFailure(mem, o, root, tables, SegmentRun(dramBase, elfAddr, s));
    LoopFailure(mem, o, root, tables, SegmentRun(dramBase, elfAddr, s));
  }

  /** `vsmode_setup`, up to the point where the G-stage is switched on. `ram` is the tree before the
      devices are mapped. */
  method VsmodeSetup(mem: HostMemory, rom: Rom, hartId: nat, image: GuestImage, devices: Devices)
      returns (r: BootResult, ghost ram: Tables)
    requires mem.HeapOk() && mem.frames == map[] && hartId < 8
    requires image.dtbLen < GUEST_DTB_SIZE_PER_HART
    requires forall s <- image.segments :: Loadable(s) ==> SegmentFits(GuestBegin(hartId), s)
    requires forall m <- DeviceMaps(devices) :: Mappable(m)
    modifies mem
    ensures r.Booted? ==>
              && mem.Valid() && ImageOk(image)
              && r.entry == GuestBegin(hartId) && r.dtb == DRAM_BASE + hartId * GUEST_DTB_SIZE_PER_HART
              && AtpPpn(r.hgatp) * PAGE_SIZE == mem.root && HgatpMode(r.hgatp) == SV39X4
              && r.hgatp == 8 * 0x1000_0000_0000_0000 + mem.root / 4096
              && Ready(mem.root, ram, mem.tables, mem.frames, rom, BootRuns(hartId, image), DeviceMaps(devices))
              && !SmallInsideLarge(DeviceMaps(devices)) && forall m <- DeviceMaps(devices) :: Accepted(m)
    ensures !r.Booted? ==> StopReason(mem, r, hartId, image, devices)
  {
    hide HeapInv, TreeInv, View, Built, RunOk, SegmentFits, Mappable, Overlaid, Private, AllUsed, AllSmall, FillRun,
         DtbRun, DeviceMaps, Loadable, SegmentOk, EndOf, HgatpSet, HgatpMode, AtpPpn, Extends, BlockedAt, Accepted,
         Verdict, SmallInsideLarge, RunFailure, LoadFailure;
    ram := map[];
    mem.InitializePageTable();
    ghost var zero := mem.tables;
    NothingIsSmall(mem.root, zero);
    var o, dtb := MapGuestDtb(mem, rom, image.dtbAddr, image.dtbLen, hartId);
    if !o.Done? {
      DtbLoopOk(image.dtbAddr, image.dtbLen, hartId);
      LoopFailure(mem, o, mem.root, zero, DtbRun(image.dtbAddr, image.dtbLen, hartId));
      RamStops(mem, o, DtbRun(image.dtbAddr, image.dtbLen, hartId));
      return Stopped(o), ram;
    }
    ghost var tables1, frames1 := mem.tables, mem.frames;
    var load := LoadGuestElf(mem, rom, image.elfAddr, image.segments, GuestBegin(hartId));
    BuiltSmall(mem.root, zero, map[], tables1, frames1, rom, [DtbRun(image.dtbAddr, image.dtbLen, hartId)]);
    if !load.Loaded? {
      if load.Failed? {
        LoadLoopFailure(mem, load.outcome, mem.root, tables1, GuestBegin(hartId), image.elfAddr, image.segments);
      }
      return LoadStopped(load), ram;
    }
    ghost var elf := GuestRuns(hartId, image);
    BuiltConcat(mem.root, zero, map[], tables1, frames1, mem.tables, mem.frames, rom,
                [DtbRun(image.dtbAddr, image.dtbLen, hartId)], elf);
    ghost var tables2, frames2 := mem.tables, mem.frames;
    EndBound(GuestBegin(hartId), image.elfAddr, image.segments);
    BuiltSmall(mem.root, tables1, frames1, tables2, frames2, rom, elf);
    EndOfAligned(elf);
    FillOk(load.end, GuestEnd(hartId));
    o := FillingMemoryRegion(mem, rom, load.end, GuestEnd(hartId));
    if !o.Done? {
      FillAligned(load.end, GuestEnd(hartId));
      LoopFailure(mem, o, mem.root, tables2, FillRun(load.end, GuestEnd(hartId)));
      RamStops(mem, o, FillRun(load.end, GuestEnd(hartId)));
      return Stopped(o), ram;
    }
    BuiltSmall(mem.root, tables2, frames2, mem.tables, mem.frames, rom, [FillRun(load.end, GuestEnd(hartId))]);
    BuiltConcat(mem.root, zero, map[], tables2, frames2, mem.tables, mem.frames, rom,
                [DtbRun(image.dtbAddr, image.dtbLen, hartId)] + elf, [FillRun(load.end, GuestEnd(hartId))]);
    ram := mem.tables;
    BlockedExactly(mem.root, ram, DeviceMaps(devices));
    o := mem.GeneratePageTable(DeviceMaps(devices));
    if !o.Done? { return Stopped(o), ram; }
    HeapFacts(mem.root, mem.free, mem.tables, mem.frames);
    HgatpForRoot(mem.root);
    assert Built(mem.root, zero, map[], ram, mem.frames, rom, BootRuns(hartId, image));
    ReadyFromBuilt(mem.root, zero, ram, mem.tables, mem.frames, rom, BootRuns(hartId, image), DeviceMaps(devices));
    r := Booted(load.entry, dtb, HgatpSet(SV39X4, 0, Shr(mem.root, 12)));
  }
}
