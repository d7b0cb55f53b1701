/** What the guest finds when it is entered: contents, sharing, coverage and device pages. */
module BootTheorems {
  import opened Bits
  import opened PageTable
  import opened GStageTree
  import opened MemoryMaps
  import opened Sv39x4
  import opened GuestMemory
  import opened GuestLoader
  import opened Boot
  import Plic

  ghost predicate DeviceCovered(maps: seq<MemoryMap>, n: nat) {
    exists m <- maps :: Covers(m, n)
  }

  predicate IdentityMaps(maps: seq<MemoryMap>) {
    forall m <- maps :: m.virtStart == m.physStart && m.flags == DEVICE_FLAGS
  }

  lemma DeviceMapsAreIdentity(d: Devices)
    ensures IdentityMaps(DeviceMaps(d))
  {
  }

  /** A page under any device map translates to itself. */
  lemma {:induction false} DeviceIdentity(maps: seq<MemoryMap>, n: nat, before: Option<Leaf>)
    requires IdentityMaps(maps) && DeviceCovered(maps, n)
    ensures var r := Overlay(maps, n, before); r.Some? && r.value.page == n && r.value.flags == DEVICE_FLAGS
  {
    hide Covers;
    var last := maps[|maps| - 1];
    if !Covers(last, n) {
      assert forall m <- maps :: m == last || m in maps[..|maps| - 1];
      DeviceIdentity(maps[..|maps| - 1], n, before);
    }
  }

  /** A guest page planned by a run keeps its frame if and only if no device map covers it, or the frame
      happens to lie at the page's own address. It keeps frame, contents and permissions if and only if no
      device map covers it. */
  lemma RamSurvives(root: nat, ram: Tables, tables: Tables, frames: Frames, rom: Rom, runs: seq<Run>,
                    maps: seq<MemoryMap>, n: nat)
    requires Ready(root, ram, tables, frames, rom, runs, maps) && IdentityMaps(maps) && n < PAGES
    requires LastRun(runs, n).Some? && LastRun(runs, n).value.flags != DEVICE_FLAGS
    ensures View(root, tables, n).Some?
    ensures FrameOf(root, tables, n) == FrameOf(root, ram, n)
       <==> !DeviceCovered(maps, n) || FrameOf(root, ram, n) == n * PAGE_SIZE
    ensures Backed(root, tables, frames, map[], rom, LastRun(runs, n).value, n) <==> !DeviceCovered(maps, n)
  {
    hide View, Covers, Private, AllUsed, LastRun, RunsDisjoint;
    if DeviceCovered(maps, n) {
      DeviceIdentity(maps, n, View(root, ram, n));
    } else {
      OverlayNone(maps, n, View(root, ram, n));
    }
  }

  /** A page neither planned nor under a device map is not mapped: access to it traps. */
  lemma UnplannedTraps(root: nat, ram: Tables, tables: Tables, frames: Frames, rom: Rom, runs: seq<Run>,
                       maps: seq<MemoryMap>, n: nat)
    requires Ready(root, ram, tables, frames, rom, runs, maps) && n < PAGES
    requires LastRun(runs, n).None? && !DeviceCovered(maps, n)
    ensures View(root, tables, n) == None
  {
    hide Covers, Private, AllUsed, LastRun, RunsDisjoint;
    OverlayNone(maps, n, View(root, ram, n));
  }

  /** The byte the guest reads at `gpa`, where a guest frame backs it. */
  function GuestByte(root: nat, tables: Tables, frames: Frames, gpa: nat): Option<Byte> {
    match GTranslate(root, tables, gpa)
    case None => None
    case Some(hpa) =>
      var f := hpa - hpa % PAGE_SIZE;
      if f in frames && hpa % PAGE_SIZE < |frames[f]| then Some(frames[f][hpa % PAGE_SIZE]) else None
  }

  lemma BackedByte(root: nat, tables: Tables, frames: Frames, frames0: Frames, rom: Rom, run: Run, gpa: nat)
    requires run.gpa % PAGE_SIZE == 0 && run.gpa <= gpa < PAGES * PAGE_SIZE && run.src.Some?
    requires First(run) <= gpa / PAGE_SIZE && Backed(root, tables, frames, frames0, rom, run, gpa / PAGE_SIZE)
    ensures GuestByte(root, tables, frames, gpa) == Some(rom(run.src.value + (gpa - run.gpa)))
  {
    hide View;
    var n, o := gpa / PAGE_SIZE, gpa % PAGE_SIZE;
    DivModUnique(n, PAGES, 0, n);
    var f := View(root, tables, n).value.page * PAGE_SIZE;
    DivModUnique(f + o, PAGE_SIZE, View(root, tables, n).value.page, o);
    var src := run.src.value + (n - First(run)) * PAGE_SIZE;
    assert frames[f][o] == rom(src + o);
  }

  lemma {:induction false} LastRunUnique(runs: seq<Run>, i: nat, n: nat)
    requires i < |runs| && InRun(runs[i], n)
    requires forall j :: i < j < |runs| ==> !InRun(runs[j], n)
    ensures LastRun(runs, n) == Some(runs[i])
  {
    hide InRun;
    if i < |runs| - 1 { LastRunUnique(runs[..|runs| - 1], i, n); }
  }

  /** A page of one of several disjoint runs is planned by that run. */
  lemma DisjointRunPlans(runs: seq<Run>, run: Run, n: nat)
    requires RunsDisjoint(runs) && run in runs && InRun(run, n)
    ensures LastRun(runs, n) == Some(run)
  {
    hide InRun, LastRun;
    var i :| 0 <= i < |runs| && runs[i] == run;
    LastRunUnique(runs, i, n);
  }

  /** The pages of a segment hold all its bytes. */
  lemma SegmentCovers(s: Segment, a: nat)
    requires 12 <= a <= 64 && s.pAlign == Pow2(a) && s.pFilesz + (s.pAlign - 1) < WORD
    ensures s.pAlign > 0 && s.pFilesz <= SegmentPages(s) * PAGE_SIZE
    ensures SegmentPages(s) * PAGE_SIZE == AlignSize(s.pFilesz, s.pAlign)
  {
    hide AlignSize, Pow2;
    AlignSizeMeaning(s.pFilesz, a);
    Pow2Table();
    Pow2Multiple(a);
    var x := AlignSize(s.pFilesz, s.pAlign);
    MultipleOfPage(x, Pow2(a));
    DivModUnique(x + PAGE_SIZE - 1, PAGE_SIZE, x / PAGE_SIZE, PAGE_SIZE - 1);
  }

  lemma {:induction false} Pow2Multiple(a: nat)
    requires 12 <= a
    ensures Pow2(a) % PAGE_SIZE == 0
  {
    Pow2Table();
    if a > 12 {
      Pow2Multiple(a - 1);
      var q := Pow2(a - 1) / PAGE_SIZE;
      DivModUnique(Pow2(a), PAGE_SIZE, 2 * q, 0);
    }
  }

  lemma MultipleOfPage(x: nat, p: nat)
    requires p > 0 && p % PAGE_SIZE == 0 && x % p == 0
    ensures x % PAGE_SIZE == 0
  {
    var q, k := p / PAGE_SIZE, x / p;
    DivNonNegative(x, p);
    assert x == p * k && p == PAGE_SIZE * q;
    assert (PAGE_SIZE * q) * k == PAGE_SIZE * (q * k);
    DivModUnique(x, PAGE_SIZE, q * k, 0);
  }

  /** Loading preserves contents end to end: byte `k` of a segment is what the guest reads at its
      address, whatever was loaded, filled and mapped afterwards, unless a device map covers the page. */
  lemma LoadedByte(root: nat, ram: Tables, tables: Tables, frames: Frames, rom: Rom, hartId: nat, image: GuestImage,
                   maps: seq<MemoryMap>, s: Segment, a: nat, k: nat)
    requires ImageOk(image) && Ready(root, ram, tables, frames, rom, BootRuns(hartId, image), maps)
    requires IdentityMaps(maps)
    requires RunsDisjoint(BootRuns(hartId, image))
    requires s in image.segments && s.pType == 1 && 12 <= a <= 64 && s.pAlign == Pow2(a) && k < s.pFilesz
    requires var gpa := GuestBegin(hartId) + s.pPaddr + k;
             gpa < PAGES * PAGE_SIZE && !DeviceCovered(maps, gpa / PAGE_SIZE)
    ensures GuestByte(root, tables, frames, GuestBegin(hartId) + s.pPaddr + k)
         == Some(rom(image.elfAddr + s.pOffset + k))
  {
    hide Ready, RunsDisjoint, LastRun, GuestByte, Backed, ElfRuns, Pow2, SegmentPages, DeviceCovered;
    var runs := BootRuns(hartId, image);
    ElfRunsFrom(GuestBegin(hartId), image.elfAddr, image.segments);
    assert SegmentOk(s);
    var run := SegmentRun(GuestBegin(hartId), image.elfAddr, s);
    assert run in runs;
    SegmentCovers(s, a);
    ReadyAligned(root, ram, tables, frames, rom, runs, maps, run);
    var gpa := run.gpa + k;
    InRunByte(run, gpa);
    DisjointRunPlans(runs, run, gpa / PAGE_SIZE);
    SegmentNotDevice(s.pFlags);
    RamSurvives(root, ram, tables, frames, rom, runs, maps, gpa / PAGE_SIZE);
    BackedByte(root, tables, frames, map[], rom, run, gpa);
  }

  /** The device tree reaches the guest unchanged, byte for byte. */
  lemma DtbByte(root: nat, ram: Tables, tables: Tables, frames: Frames, rom: Rom, hartId: nat, image: GuestImage,
                maps: seq<MemoryMap>, k: nat)
    requires ImageOk(image) && Ready(root, ram, tables, frames, rom, BootRuns(hartId, image), maps)
    requires IdentityMaps(maps)
    requires RunsDisjoint(BootRuns(hartId, image)) && hartId < 8 && k < image.dtbLen < GUEST_DTB_SIZE_PER_HART
    requires !DeviceCovered(maps, (DRAM_BASE + hartId * GUEST_DTB_SIZE_PER_HART + k) / PAGE_SIZE)
    ensures GuestByte(root, tables, frames, DRAM_BASE + hartId * GUEST_DTB_SIZE_PER_HART + k)
         == Some(rom(image.dtbAddr + k))
  {
    hide Ready, RunsDisjoint, LastRun, GuestByte, Backed, ElfRuns, DeviceCovered;
    var runs := BootRuns(hartId, image);
    var run := DtbRun(image.dtbAddr, image.dtbLen, hartId);
    assert runs[0] == run;
    DtbInSlot(image.dtbAddr, image.dtbLen, hartId);
    ReadyAligned(root, ram, tables, frames, rom, runs, maps, run);
    var gpa := run.gpa + k;
    InRunByte(run, gpa);
    DisjointRunPlans(runs, run, gpa / PAGE_SIZE);
    assert run.flags != DEVICE_FLAGS;
    RamSurvives(root, ram, tables, frames, rom, runs, maps, gpa / PAGE_SIZE);
    BackedByte(root, tables, frames, map[], rom, run, gpa);
  }

  lemma ReadyAligned(root: nat, ram: Tables, tables: Tables, frames: Frames, rom: Rom, runs: seq<Run>,
                     maps: seq<MemoryMap>, run: Run)
    requires Ready(root, ram, tables, frames, rom, runs, maps) && run in runs && run.count > 0
    ensures run.gpa % PAGE_SIZE == 0
  {
  }

  lemma InRunByte(run: Run, gpa: nat)
    requires run.gpa % PAGE_SIZE == 0 && run.gpa <= gpa < run.gpa + run.count * PAGE_SIZE
    ensures InRun(run, gpa / PAGE_SIZE)
  {
  }

  lemma SegmentNotDevice(pFlags: nat)
    ensures SegmentFlags(pFlags) != Some(DEVICE_FLAGS)
  {
  }

  // Coverage.

  lemma ElfRunsAbove(hartId: nat, image: GuestImage, run: Run, n: nat)
    requires ImageOk(image) && run in GuestRuns(hartId, image) && AlignedRuns(GuestRuns(hartId, image)) && InRun(run, n)
    ensures GuestBegin(hartId) / PAGE_SIZE <= n < EndOf(GuestRuns(hartId, image)) / PAGE_SIZE
  {
    hide EndOf, ElfRuns, SegmentPages, SegmentFlags;
    ElfRunsFrom(GuestBegin(hartId), image.elfAddr, image.segments);
    var end := EndOf(GuestRuns(hartId, image));
    assert run.gpa + run.count * PAGE_SIZE <= end;
  }

  lemma DtbPages(hartId: nat, image: GuestImage, n: nat)
    requires image.dtbLen < GUEST_DTB_SIZE_PER_HART && hartId < 8
    requires InRun(DtbRun(image.dtbAddr, image.dtbLen, hartId), n)
    ensures DRAM_BASE / PAGE_SIZE <= n < GuestBegin(hartId) / PAGE_SIZE
  {
    DtbInSlot(image.dtbAddr, image.dtbLen, hartId);
  }

  lemma FillPages(start: nat, end: nat, n: nat)
    requires start % PAGE_SIZE == 0 && end % PAGE_SIZE == 0
    ensures InRun(FillRun(start, end), n) <==> start / PAGE_SIZE <= n < end / PAGE_SIZE
  {
  }

  /** No page is mapped twice during boot if and only if the segments do not overlap and, unless the
      device tree is empty, at least one page was loaded: with `elf_end` still 0 the fill starts at
      address 0 and takes the device tree's pages. */
  lemma BootRunsDisjoint(hartId: nat, image: GuestImage)
    requires ImageOk(image) && AlignedRuns(GuestRuns(hartId, image))
    requires image.dtbLen < GUEST_DTB_SIZE_PER_HART && hartId < 8
    ensures RunsDisjoint(BootRuns(hartId, image))
       <==> RunsDisjoint(GuestRuns(hartId, image)) && (image.dtbLen == 0 || EndOf(GuestRuns(hartId, image)) > 0)
  {
    hide EndOf, ElfRuns, InRun, RunsDisjoint;
    var elf := GuestRuns(hartId, image);
    if RunsDisjoint(BootRuns(hartId, image)) {
      BootRunsApart(hartId, image);
    } else if RunsDisjoint(elf) && (image.dtbLen == 0 || EndOf(elf) > 0) {
      BootRunsTogether(hartId, image);
    }
  }

  lemma BootRunsApart(hartId: nat, image: GuestImage)
    requires ImageOk(image) && AlignedRuns(GuestRuns(hartId, image))
    requires image.dtbLen < GUEST_DTB_SIZE_PER_HART && hartId < 8
    requires RunsDisjoint(BootRuns(hartId, image))
    ensures RunsDisjoint(GuestRuns(hartId, image)) && (image.dtbLen == 0 || EndOf(GuestRuns(hartId, image)) > 0)
  {
    hide EndOf, ElfRuns, InRun;
    var elf, all := GuestRuns(hartId, image), BootRuns(hartId, image);
    assert forall i :: 0 <= i < |elf| ==> all[i + 1] == elf[i];
    var dtb, fill := all[0], all[|all| - 1];
    if EndOf(elf) == 0 && image.dtbLen > 0 {
      var n := First(dtb);
      DtbStart(hartId, image);
      FillPages(0, GuestEnd(hartId), n);
    }
  }

  lemma DtbStart(hartId: nat, image: GuestImage)
    requires image.dtbLen < GUEST_DTB_SIZE_PER_HART && hartId < 8
    ensures var dtb := DtbRun(image.dtbAddr, image.dtbLen, hartId);
            && First(dtb) < GuestEnd(hartId) / PAGE_SIZE && GuestEnd(hartId) % PAGE_SIZE == 0
            && (image.dtbLen > 0 ==> InRun(dtb, First(dtb)))
            && (image.dtbLen == 0 ==> dtb.count == 0)
  {
  }

  lemma BootRunsTogether(hartId: nat, image: GuestImage)
    requires ImageOk(image) && AlignedRuns(GuestRuns(hartId, image))
    requires image.dtbLen < GUEST_DTB_SIZE_PER_HART && hartId < 8
    requires RunsDisjoint(GuestRuns(hartId, image)) && (image.dtbLen == 0 || EndOf(GuestRuns(hartId, image)) > 0)
    ensures RunsDisjoint(BootRuns(hartId, image))
  {
    hide EndOf, ElfRuns, InRun, FillRun, DtbRun;
    var elf, all := GuestRuns(hartId, image), BootRuns(hartId, image);
    EndOfAligned(GuestRuns(hartId, image));
    DtbStart(hartId, image);
    forall i, j, n: nat | 0 <= i < j < |all| && InRun(all[i], n)
      ensures !InRun(all[j], n)
    {
      if 0 < i && j < |all| - 1 {
        assert all[i] == elf[i - 1] && all[j] == elf[j - 1];
      } else {
        if 0 < i { assert all[i] == elf[i - 1]; ElfRunsAbove(hartId, image, all[i], n); }
        if i == 0 { DtbNonEmpty(hartId, image, n); DtbPages(hartId, image, n); EndAboveBegin(hartId, image); }
        if j < |all| - 1 {
          assert all[j] == elf[j - 1];
          if InRun(all[j], n) { ElfRunsAbove(hartId, image, all[j], n); }
        }
        FillPages(EndOf(elf), GuestEnd(hartId), n);
      }
    }
  }

  lemma DtbNonEmpty(hartId: nat, image: GuestImage, n: nat)
    requires InRun(DtbRun(image.dtbAddr, image.dtbLen, hartId), n)
    ensures image.dtbLen > 0
  {
  }

  lemma EndAboveBegin(hartId: nat, image: GuestImage)
    requires ImageOk(image) && AlignedRuns(GuestRuns(hartId, image))
    ensures EndOf(GuestRuns(hartId, image)) > 0 ==>
              EndOf(GuestRuns(hartId, image)) / PAGE_SIZE > GuestBegin(hartId) / PAGE_SIZE
  {
    hide EndOf, ElfRuns;
    var runs := GuestRuns(hartId, image);
    if EndOf(runs) > 0 {
      var run :| run in runs && run.count > 0 && run.gpa + run.count * PAGE_SIZE == EndOf(runs);
      ElfRunsAbove(hartId, image, run, First(run));
    }
  }

  /** The mapped RAM is exactly the pages of the runs. */
  lemma RamMapped(root: nat, ram: Tables, tables: Tables, frames: Frames, rom: Rom, runs: seq<Run>,
                  maps: seq<MemoryMap>, n: nat)
    requires Ready(root, ram, tables, frames, rom, runs, maps) && n < PAGES
    ensures View(root, ram, n).Some? <==> exists run <- runs :: InRun(run, n)
  {
    hide Private, AllUsed, RunsDisjoint, Overlaid, PageOf, LastRun, InRun;
  }

  /** When the segments leave no gap below `elf_end`, the whole region of the guest is mapped. */
  lemma RegionMapped(root: nat, ram: Tables, tables: Tables, frames: Frames, rom: Rom, hartId: nat, image: GuestImage,
                     maps: seq<MemoryMap>, n: nat)
    requires ImageOk(image) && Ready(root, ram, tables, frames, rom, BootRuns(hartId, image), maps) && hartId < 8
    requires GuestBegin(hartId) / PAGE_SIZE <= n < GuestEnd(hartId) / PAGE_SIZE
    requires n < EndOf(GuestRuns(hartId, image)) / PAGE_SIZE ==> exists run <- GuestRuns(hartId, image) :: InRun(run, n)
    ensures n < PAGES && View(root, ram, n).Some?
  {
    hide EndOf, ElfRuns, InRun, View, RunsDisjoint, FillRun, DtbRun, Private, AllUsed, Overlaid, Planned;
    var elf, all := GuestRuns(hartId, image), BootRuns(hartId, image);
    assert forall run <- elf :: run in all;
    var fill := FillRun(EndOf(elf), GuestEnd(hartId));
    assert fill in all;
    EndOfAligned(GuestRuns(hartId, image));
    FillPages(EndOf(elf), GuestEnd(hartId), n);
    RamMapped(root, ram, tables, frames, rom, all, maps, n);
  }

  // Frames and pages, one to one.

  function FrameOf(root: nat, tables: Tables, n: nat): nat {
    match View(root, tables, n)
    case Some(leaf) => leaf.page * PAGE_SIZE
    case None => 0
  }

  lemma {:induction false} InjectiveImage(root: nat, tables: Tables, pages: set<nat>, image: set<nat>)
    requires forall n, n' :: n in pages && n' in pages && FrameOf(root, tables, n) == FrameOf(root, tables, n') ==>
               n == n'
    requires forall n <- pages :: FrameOf(root, tables, n) in image
    requires forall f <- image :: exists n <- pages :: FrameOf(root, tables, n) == f
    ensures |image| == |pages|
  {
    hide FrameOf;
    if pages == {} {
      assert image == {};
    } else {
      var n :| n in pages;
      var f := FrameOf(root, tables, n);
      forall g <- image - {f}
        ensures exists m <- pages - {n} :: FrameOf(root, tables, m) == g
      {
        var m :| m in pages && FrameOf(root, tables, m) == g;
        assert m in pages - {n};
      }
      InjectiveImage(root, tables, pages - {n}, image - {f});
      assert image == (image - {f}) + {f} && pages == (pages - {n}) + {n};
    }
  }

  ghost function MappedPages(root: nat, tables: Tables): set<nat> {
    set n: nat | n < PAGES && View(root, tables, n).Some?
  }

  /** With runs that do not overlap, exactly as many frames were taken as guest pages were mapped, no
      two pages share one, and none of them holds a page table. */
  lemma FrameCount(root: nat, ram: Tables, tables: Tables, frames: Frames, rom: Rom, runs: seq<Run>,
                   maps: seq<MemoryMap>)
    requires Ready(root, ram, tables, frames, rom, runs, maps) && RunsDisjoint(runs)
    ensures |frames| == |MappedPages(root, ram)|
    ensures forall n, n' :: n in MappedPages(root, ram) && n' in MappedPages(root, ram) ==>
              (FrameOf(root, ram, n) == FrameOf(root, ram, n') ==> n == n')
    ensures forall n <- MappedPages(root, ram) ::
              FrameOf(root, ram, n) in frames && Outside(tables, FrameOf(root, ram, n))
  {
    hide View, Planned, Overlaid, RunsDisjoint;
    var pages := MappedPages(root, ram);
    forall n <- pages
      ensures Serves(root, ram, FrameOf(root, ram, n), n)
    {
    }
    forall f <- frames.Keys
      ensures exists n <- pages :: FrameOf(root, ram, n) == f
    {
      var n: nat :| Serves(root, ram, f, n);
      assert n in pages;
    }
    InjectiveImage(root, ram, pages, frames.Keys);
  }

  // Devices.

  /** The PLIC's pass-through ends exactly at the first context register. */
  lemma PlicSplit(plic: Region, n: nat)
    requires plic.base % Plic.CONTEXT_BASE == 0
    ensures Covers(PlicMap(plic), n) <==> plic.base / PAGE_SIZE <= n < (plic.base + Plic.CONTEXT_BASE) / PAGE_SIZE
    ensures Level(PlicMap(plic)) == 1 && Accepted(PlicMap(plic))
  {
    var m := PlicMap(plic);
    AlignedPage(plic.base, 1);
    assert VirtLen(m) == 0x20_0000 && Steps(m) == 1;
    DivModUnique(plic.base + Plic.CONTEXT_BASE, PAGE_SIZE, plic.base / PAGE_SIZE + 512, 0);
  }

  /** Apart from a fill from address 0, no run of a boot reaches below `DRAM_BASE`. */
  lemma RunsAboveDram(hartId: nat, image: GuestImage, run: Run, n: nat)
    requires ImageOk(image) && AlignedRuns(BootRuns(hartId, image)) && EndOf(GuestRuns(hartId, image)) > 0
    requires run in BootRuns(hartId, image) && InRun(run, n)
    ensures n >= DRAM_BASE / PAGE_SIZE
  {
    hide EndOf, ElfRuns, SegmentPages, SegmentFlags;
    var elf := GuestRuns(hartId, image);
    assert forall r <- elf :: r in BootRuns(hartId, image);
    if run in elf {
      ElfRunsAbove(hartId, image, run, n);
    } else if run == FillRun(EndOf(elf), GuestEnd(hartId)) {
      EndAboveBegin(hartId, image);
    }
  }

  /** No access to a context register of the PLIC escapes the emulation, if and only if some page was
      loaded: with `elf_end` still 0 the fill starts at address 0 and maps RAM over the registers. (The
      PLIC lies below `DRAM_BASE`, and no other device map reaches the register's page.) */
  lemma ContextRegistersTrap(root: nat, ram: Tables, tables: Tables, frames: Frames, rom: Rom, hartId: nat,
                             image: GuestImage, d: Devices, gpa: nat)
    requires ImageOk(image) && Ready(root, ram, tables, frames, rom, BootRuns(hartId, image), DeviceMaps(d))
    requires d.plic.base % Plic.CONTEXT_BASE == 0 && d.plic.base + Plic.CONTEXT_BASE <= gpa < DRAM_BASE
    requires forall m <- DeviceMaps(d) :: m != PlicMap(d.plic) ==> !Covers(m, gpa / PAGE_SIZE)
    ensures GTranslate(root, tables, gpa) == None <==> EndOf(GuestRuns(hartId, image)) > 0
  {
    hide LastRun, InRun, Covers, DeviceMaps, View, EndOf, ElfRuns, Planned, Private, AllUsed, RunsDisjoint, Overlaid,
         FillRun, DtbRun;
    var n, runs, elf := gpa / PAGE_SIZE, BootRuns(hartId, image), GuestRuns(hartId, image);
    PlicSplit(d.plic, n);
    DivModUnique(n, PAGES, 0, n);
    assert !DeviceCovered(DeviceMaps(d), n);
    if EndOf(elf) > 0 {
      forall run <- runs
        ensures !InRun(run, n)
      {
        if InRun(run, n) { RunsAboveDram(hartId, image, run, n); }
      }
      UnplannedTraps(root, ram, tables, frames, rom, runs, DeviceMaps(d), n);
    } else {
      var fill := FillRun(0, GuestEnd(hartId));
      assert runs[|runs| - 1] == fill;
      FillPages(0, GuestEnd(hartId), n);
      RamMapped(root, ram, tables, frames, rom, runs, DeviceMaps(d), n);
      KeptOutsideDevices(root, ram, tables, frames, rom, runs, DeviceMaps(d), n);
    }
  }

  lemma KeptOutsideDevices(root: nat, ram: Tables, tables: Tables, frames: Frames, rom: Rom, runs: seq<Run>,
                           maps: seq<MemoryMap>, n: nat)
    requires Ready(root, ram, tables, frames, rom, runs, maps) && n < PAGES && !DeviceCovered(maps, n)
    ensures View(root, tables, n) == View(root, ram, n)
  {
    hide Covers, Private, AllUsed, LastRun, RunsDisjoint, View, Planned;
    OverlayNone(maps, n, View(root, ram, n));
  }

  // Guest RAM in host memory.

  /** A guest-physical address of RAM: mapped, and under no device map. */
  ghost predicate InRam(root: nat, tables: Tables, maps: seq<MemoryMap>, gpa: nat) {
    gpa < PAGES * PAGE_SIZE && GTranslate(root, tables, gpa).Some? && !DeviceCovered(maps, gpa / PAGE_SIZE)
  }

  /** RAM of the guest lies in frames handed out to it, and never in a page table of the hypervisor. */
  lemma RamInFrames(root: nat, ram: Tables, tables: Tables, frames: Frames, rom: Rom, runs: seq<Run>,
                    maps: seq<MemoryMap>, gpa: nat)
    requires Ready(root, ram, tables, frames, rom, runs, maps) && InRam(root, tables, maps, gpa)
    ensures var h := GTranslate(root, tables, gpa).value;
            && h % PAGE_SIZE == gpa % PAGE_SIZE
            && h - h % PAGE_SIZE in frames && Outside(tables, h - h % PAGE_SIZE) && !InTable(tables, h)
            && Serves(root, ram, h - h % PAGE_SIZE, gpa / PAGE_SIZE)
  {
    hide View, Covers, AllUsed, LastRun, RunsDisjoint, Planned, Overlaid, DeviceCovered;
    var n, o := gpa / PAGE_SIZE, gpa % PAGE_SIZE;
    DivModUnique(n, PAGES, 0, n);
    KeptOutsideDevices(root, ram, tables, frames, rom, runs, maps, n);
    var page := View(root, tables, n).value.page;
    DivModUnique(page * PAGE_SIZE + o, PAGE_SIZE, page, o);
    assert Serves(root, ram, page * PAGE_SIZE, n);
  }

  /** Isolation, over every address the guest can use: a byte of a page table of the hypervisor is within
      reach of the guest if and only if a device map covers its page. */
  lemma TableReachable(root: nat, ram: Tables, tables: Tables, frames: Frames, rom: Rom, runs: seq<Run>,
                       d: Devices, h: nat)
    requires Ready(root, ram, tables, frames, rom, runs, DeviceMaps(d)) && InTable(tables, h)
    ensures (exists gpa: nat :: gpa < PAGES * PAGE_SIZE && GTranslate(root, tables, gpa) == Some(h))
       <==> h < PAGES * PAGE_SIZE && DeviceCovered(DeviceMaps(d), h / PAGE_SIZE)
  {
    hide Ready, GTranslate, InTable, DeviceCovered, DeviceMaps, Serves;
    if gpa: nat :| gpa < PAGES * PAGE_SIZE && GTranslate(root, tables, gpa) == Some(h) {
      if DeviceCovered(DeviceMaps(d), gpa / PAGE_SIZE) {
        DeviceAddressIdentity(root, ram, tables, frames, rom, runs, d, gpa);
      } else {
        RamInFrames(root, ram, tables, frames, rom, runs, DeviceMaps(d), gpa);
      }
    }
    if h < PAGES * PAGE_SIZE && DeviceCovered(DeviceMaps(d), h / PAGE_SIZE) {
      DeviceAddressIdentity(root, ram, tables, frames, rom, runs, d, h);
    }
  }

  /** Distinct addresses of guest RAM are distinct host addresses. */
  lemma RamInjective(root: nat, ram: Tables, tables: Tables, frames: Frames, rom: Rom, runs: seq<Run>,
                     maps: seq<MemoryMap>, a: nat, b: nat)
    requires Ready(root, ram, tables, frames, rom, runs, maps)
    requires InRam(root, tables, maps, a) && InRam(root, tables, maps, b)
    requires GTranslate(root, tables, a) == GTranslate(root, tables, b)
    ensures a == b
  {
    hide View, Covers, AllUsed, LastRun, RunsDisjoint, Planned, Overlaid, DeviceCovered, GTranslate, Serves;
    RamInFrames(root, ram, tables, frames, rom, runs, maps, a);
    RamInFrames(root, ram, tables, frames, rom, runs, maps, b);
    assert a / PAGE_SIZE == b / PAGE_SIZE && a % PAGE_SIZE == b % PAGE_SIZE;
  }

  /** Every address under a device map translates to itself. */
  lemma DeviceAddressIdentity(root: nat, ram: Tables, tables: Tables, frames: Frames, rom: Rom, runs: seq<Run>,
                              d: Devices, gpa: nat)
    requires Ready(root, ram, tables, frames, rom, runs, DeviceMaps(d))
    requires gpa < PAGES * PAGE_SIZE && DeviceCovered(DeviceMaps(d), gpa / PAGE_SIZE)
    ensures GTranslate(root, tables, gpa) == Some(gpa)
  {
    hide LastRun, Covers, DeviceMaps, View, Planned, Private, AllUsed, RunsDisjoint, IdentityMaps;
    var n := gpa / PAGE_SIZE;
    DeviceMapsAreIdentity(d);
    DeviceIdentity(DeviceMaps(d), n, View(root, ram, n));
    DivModUnique(n, PAGES, 0, n);
  }

  /** The regions that are passed through whole: all devices but the PLIC. */
  function PassedThrough(d: Devices): seq<Region> {
    d.virtio + [d.uart, d.initrd, d.clint, d.pci, d.rtc] + d.pciWindows
  }

  lemma RegionCovered(r: Region, gpa: nat)
    requires r.base <= gpa < r.base + r.size && Accepted(RegionMap(r))
    ensures Covers(RegionMap(r), gpa / PAGE_SIZE)
  {
    var m := RegionMap(r);
    AlignedPage(r.base, Level(m));
    StepsCover(r.size, Size(Level(m)));
    assert Steps(m) * Size(Level(m)) == (Steps(m) * Span(Level(m))) * PAGE_SIZE;
  }

  lemma StepsCover(len: nat, step: nat)
    requires step > 0
    ensures len <= StepCount(len, step) * step
  {
    var x := len + step - 1;
    assert x == step * (x / step) + x % step;
  }

  /** The guest reaches every passed-through device at its own address, whatever RAM and other devices
      were mapped. */
  lemma EveryDeviceReachable(root: nat, ram: Tables, tables: Tables, frames: Frames, rom: Rom, runs: seq<Run>,
                             d: Devices,
                             r: Region, gpa: nat)
    requires Ready(root, ram, tables, frames, rom, runs, DeviceMaps(d))
    requires r in PassedThrough(d) && Accepted(RegionMap(r)) && r.base <= gpa < r.base + r.size
    requires gpa < PAGES * PAGE_SIZE
    ensures GTranslate(root, tables, gpa) == Some(gpa)
  {
    hide Ready, Covers, GTranslate, Accepted, RegionMap, PlicMap;
    RegionCovered(r, gpa);
    assert RegionMap(r) in DeviceMaps(d) by {
      if r in d.virtio {
        var i :| 0 <= i < |d.virtio| && d.virtio[i] == r;
        assert DeviceMaps(d)[i] == RegionMap(r);
      } else if r in d.pciWindows {
        var i :| 0 <= i < |d.pciWindows| && d.pciWindows[i] == r;
        assert DeviceMaps(d)[|d.virtio| + 6 + i] == RegionMap(r);
      }
    }
    DeviceAddressIdentity(root, ram, tables, frames, rom, runs, d, gpa);
  }

  /** So is every register of the PLIC below its contexts. */
  lemma PlicReachable(root: nat, ram: Tables, tables: Tables, frames: Frames, rom: Rom, runs: seq<Run>, d: Devices,
                      gpa: nat)
    requires Ready(root, ram, tables, frames, rom, runs, DeviceMaps(d)) && Accepted(PlicMap(d.plic))
    requires d.plic.base <= gpa < d.plic.base + 0x20_0000 && gpa < PAGES * PAGE_SIZE
    ensures GTranslate(root, tables, gpa) == Some(gpa)
  {
    hide Ready, Covers, GTranslate, Accepted;
    RegionCovered(Region(d.plic.base, 0x20_0000), gpa);
    assert DeviceMaps(d)[|d.virtio| + 2] == PlicMap(d.plic);
    DeviceAddressIdentity(root, ram, tables, frames, rom, runs, d, gpa);
  }

  /** The configuration space of PCI in guest_image/host.dts (line 203), 256 MiB from 0x3000_0000, is
      accepted, mapped in 2 MiB pages, and within the guest's reach. */
  lemma HostPciReachable(root: nat, ram: Tables, tables: Tables, frames: Frames, rom: Rom, runs: seq<Run>, d: Devices,
                         gpa: nat)
    requires d.pci == Region(0x3000_0000, 0x1000_0000)
    ensures Verdict(RegionMap(d.pci)) == Done && Size(Level(RegionMap(d.pci))) == 0x20_0000
    ensures Ready(root, ram, tables, frames, rom, runs, DeviceMaps(d)) && 0x3000_0000 <= gpa < 0x4000_0000 ==>
              GTranslate(root, tables, gpa) == Some(gpa)
  {
    hide Ready, Covers, GTranslate;
    if Ready(root, ram, tables, frames, rom, runs, DeviceMaps(d)) && 0x3000_0000 <= gpa < 0x4000_0000 {
      EveryDeviceReachable(root, ram, tables, frames, rom, runs, d, d.pci, gpa);
    }
  }

  /** The regions of the guests follow each other without gap or overlap from 0x9000_0000, and their device
      trees lie one after another from 0x8000_0000, below all of them. */
  lemma GuestsApart(hartId: nat)
    requires hartId < 8
    ensures GuestBegin(0) == 0x9000_0000 && GuestEnd(hartId) == GuestBegin(hartId + 1)
    ensures GuestEnd(hartId) - GuestBegin(hartId) == 0x1000_0000
    ensures DtbRun(0, 0, 0).gpa == 0x8000_0000 && DtbRun(0, 0, hartId).gpa + 0x2000 == DtbRun(0, 0, hartId + 1).gpa
    ensures DtbRun(0, 0, hartId + 1).gpa <= GuestBegin(0)
  {
  }

  /** What the guest may execute when it is entered: a mapped page is executable if and only if no device
      map covers it and the last run over it gives it that right. So the device tree and the devices are
      never executable, whatever they overlap. */
  lemma EntryExecutable(root: nat, ram: Tables, tables: Tables, frames: Frames, rom: Rom, hartId: nat,
                        image: GuestImage, d: Devices, n: nat)
    requires ImageOk(image) && Ready(root, ram, tables, frames, rom, BootRuns(hartId, image), DeviceMaps(d))
    requires n < PAGES && View(root, tables, n).Some?
    ensures var run := LastRun(BootRuns(hartId, image), n);
            X(View(root, tables, n).value.flags)
            <==> && !DeviceCovered(DeviceMaps(d), n) && run.Some? && X(run.value.flags)
                 && run.value != DtbRun(image.dtbAddr, image.dtbLen, hartId)
  {
    hide View, Covers, Private, AllUsed, LastRun, RunsDisjoint, DeviceMaps;
    assert !X(DEVICE_FLAGS) && !X(READ_WRITE) by { assert DEVICE_FLAGS == 0x17 && READ_WRITE == 0xd7; }
    hide X;
    var runs, maps := BootRuns(hartId, image), DeviceMaps(d);
    DeviceMapsAreIdentity(d);
    if DeviceCovered(maps, n) {
      DeviceIdentity(maps, n, View(root, ram, n));
    } else {
      OverlayNone(maps, n, View(root, ram, n));
      if LastRun(runs, n).None? { UnplannedTraps(root, ram, tables, frames, rom, runs, maps, n); }
    }
  }

  /** A page that no device map covers has the permissions of the last run over it. */
  lemma RunPermissions(root: nat, ram: Tables, tables: Tables, frames: Frames, rom: Rom, runs: seq<Run>,
                       maps: seq<MemoryMap>, run: Run, n: nat)
    requires Ready(root, ram, tables, frames, rom, runs, maps) && n < PAGES && !DeviceCovered(maps, n)
    requires LastRun(runs, n) == Some(run)
    ensures View(root, tables, n).Some? && View(root, tables, n).value.flags == run.flags
  {
    hide View, Covers, Private, AllUsed, LastRun, RunsDisjoint;
    OverlayNone(maps, n, View(root, ram, n));
  }

  /** Free RAM, from the end of what was loaded to the end of the guest's region, may be read, written and
      executed, whatever was mapped there before. */
  lemma FilledPermissions(root: nat, ram: Tables, tables: Tables, frames: Frames, rom: Rom, hartId: nat,
                          image: GuestImage, maps: seq<MemoryMap>, n: nat)
    requires ImageOk(image) && Ready(root, ram, tables, frames, rom, BootRuns(hartId, image), maps) && hartId < 8
    requires EndOf(GuestRuns(hartId, image)) / PAGE_SIZE <= n < GuestEnd(hartId) / PAGE_SIZE
    requires !DeviceCovered(maps, n)
    ensures n < PAGES && View(root, tables, n).Some?
    ensures var e := View(root, tables, n).value.flags; V(e) && R(e) && W(e) && X(e) && U(e)
  {
    hide EndOf, ElfRuns, View, Ready, InRun, V, R, W, X, U, DeviceCovered;
    var runs, elf := BootRuns(hartId, image), GuestRuns(hartId, image);
    var fill := runs[|runs| - 1];
    AlignedBoot(root, ram, tables, frames, rom, hartId, image, maps);
    EndOfAligned(elf);
    FillPages(EndOf(elf), GuestEnd(hartId), n);
    LastRunUnique(runs, |runs| - 1, n);
    RunPermissions(root, ram, tables, frames, rom, runs, maps, fill, n);
    FlagBits();
  }

  lemma AlignedBoot(root: nat, ram: Tables, tables: Tables, frames: Frames, rom: Rom, hartId: nat,
                    image: GuestImage, maps: seq<MemoryMap>)
    requires ImageOk(image) && Ready(root, ram, tables, frames, rom, BootRuns(hartId, image), maps)
    ensures AlignedRuns(GuestRuns(hartId, image))
  {
    hide EndOf, ElfRuns, View;
    assert forall run <- GuestRuns(hartId, image) :: run in BootRuns(hartId, image);
  }

  lemma FlagBits()
    ensures V(ALL) && R(ALL) && W(ALL) && X(ALL) && U(ALL)
    ensures R(READ_WRITE) && W(READ_WRITE) && !X(READ_WRITE)
    ensures R(DEVICE_FLAGS) && W(DEVICE_FLAGS) && !X(DEVICE_FLAGS)
  {
    assert ALL == 0xdf && READ_WRITE == 0xd7 && DEVICE_FLAGS == 0x17;
  }

  /** A page of a loaded segment may be read; it may be written and executed if and only if the segment is
      not read-only (a segment that is writable or executable gets both). */
  lemma SegmentPagePermissions(root: nat, ram: Tables, tables: Tables, frames: Frames, rom: Rom, hartId: nat,
                               image: GuestImage, maps: seq<MemoryMap>, s: Segment, a: nat, k: nat)
    requires ImageOk(image) && Ready(root, ram, tables, frames, rom, BootRuns(hartId, image), maps)
    requires RunsDisjoint(BootRuns(hartId, image))
    requires s in image.segments && s.pType == 1 && 12 <= a <= 64 && s.pAlign == Pow2(a) && k < s.pFilesz
    requires var gpa := GuestBegin(hartId) + s.pPaddr + k;
             gpa < PAGES * PAGE_SIZE && !DeviceCovered(maps, gpa / PAGE_SIZE)
    ensures var leaf := View(root, tables, (GuestBegin(hartId) + s.pPaddr + k) / PAGE_SIZE);
            && leaf.Some? && R(leaf.value.flags)
            && (W(leaf.value.flags) <==> s.pFlags % 8 != 4) && (X(leaf.value.flags) <==> s.pFlags % 8 != 4)
            && s.pFlags % 8 in {4, 5, 6, 7}
  {
    hide Ready, RunsDisjoint, LastRun, ElfRuns, Pow2, SegmentPages, DeviceCovered, View, SegmentFlags, R, W, X;
    var runs := BootRuns(hartId, image);
    ElfRunsFrom(GuestBegin(hartId), image.elfAddr, image.segments);
    assert SegmentOk(s);
    var run := SegmentRun(GuestBegin(hartId), image.elfAddr, s);
    assert run in runs;
    SegmentCovers(s, a);
    ReadyAligned(root, ram, tables, frames, rom, runs, maps, run);
    var gpa := run.gpa + k;
    InRunByte(run, gpa);
    DisjointRunPlans(runs, run, gpa / PAGE_SIZE);
    RunPermissions(root, ram, tables, frames, rom, runs, maps, run, gpa / PAGE_SIZE);
    SegmentPermissions(s.pFlags);
  }

  /** The device tree's pages may be read and written, not executed. */
  lemma DtbPermissions(root: nat, ram: Tables, tables: Tables, frames: Frames, rom: Rom, hartId: nat,
                       image: GuestImage, maps: seq<MemoryMap>, k: nat)
    requires ImageOk(image) && Ready(root, ram, tables, frames, rom, BootRuns(hartId, image), maps)
    requires RunsDisjoint(BootRuns(hartId, image)) && hartId < 8 && k < image.dtbLen < GUEST_DTB_SIZE_PER_HART
    requires !DeviceCovered(maps, (DRAM_BASE + hartId * GUEST_DTB_SIZE_PER_HART + k) / PAGE_SIZE)
    ensures var leaf := View(root, tables, (DRAM_BASE + hartId * GUEST_DTB_SIZE_PER_HART + k) / PAGE_SIZE);
            leaf.Some? && R(leaf.value.flags) && W(leaf.value.flags) && !X(leaf.value.flags)
  {
    hide Ready, RunsDisjoint, LastRun, ElfRuns, DeviceCovered, View, R, W, X;
    var runs := BootRuns(hartId, image);
    var run := DtbRun(image.dtbAddr, image.dtbLen, hartId);
    assert runs[0] == run;
    DtbInSlot(image.dtbAddr, image.dtbLen, hartId);
    ReadyAligned(root, ram, tables, frames, rom, runs, maps, run);
    InRunByte(run, run.gpa + k);
    DisjointRunPlans(runs, run, (run.gpa + k) / PAGE_SIZE);
    RunPermissions(root, ram, tables, frames, rom, runs, maps, run, (run.gpa + k) / PAGE_SIZE);
    FlagBits();
  }

  /** Device pages may be read and written, not executed. */
  lemma DevicePermissions(root: nat, ram: Tables, tables: Tables, frames: Frames, rom: Rom, runs: seq<Run>,
                          d: Devices, n: nat)
    requires Ready(root, ram, tables, frames, rom, runs, DeviceMaps(d))
    requires n < PAGES && DeviceCovered(DeviceMaps(d), n)
    ensures var leaf := View(root, tables, n);
            leaf.Some? && R(leaf.value.flags) && W(leaf.value.flags) && !X(leaf.value.flags)
  {
    hide View, Covers, Private, AllUsed, LastRun, RunsDisjoint, DeviceMaps, Planned, R, W, X, IdentityMaps;
    DeviceMapsAreIdentity(d);
    DeviceIdentity(DeviceMaps(d), n, View(root, ram, n));
    FlagBits();
  }

  lemma BootFlags(hartId: nat, image: GuestImage, run: Run)
    requires ImageOk(image) && run in BootRuns(hartId, image)
    ensures GuestLeaf(run.flags) && A(run.flags) && D(run.flags)
  {
    hide ElfRuns, EndOf, SegmentPages;
    ElfRunsFrom(GuestBegin(hartId), image.elfAddr, image.segments);
    assert READ_WRITE == 0xd7 && READ_ONLY == 0xd3 && ALL == 0xdf;
  }

  /** Every page mapped at entry has permissions that the G-stage accepts. Its A and D bits are set if and
      only if no device map covers it, so devices need them updated by the hardware. */
  lemma EntryLegal(root: nat, ram: Tables, tables: Tables, frames: Frames, rom: Rom, hartId: nat,
                   image: GuestImage, d: Devices, n: nat)
    requires ImageOk(image) && Ready(root, ram, tables, frames, rom, BootRuns(hartId, image), DeviceMaps(d))
    requires n < PAGES && View(root, tables, n).Some?
    ensures var e := View(root, tables, n).value.flags;
            && GuestLeaf(e)
            && (A(e) <==> !DeviceCovered(DeviceMaps(d), n)) && (D(e) <==> !DeviceCovered(DeviceMaps(d), n))
  {
    hide View, Covers, Private, AllUsed, LastRun, RunsDisjoint, DeviceMaps, BootRuns;
    assert GuestLeaf(DEVICE_FLAGS) && !A(DEVICE_FLAGS) && !D(DEVICE_FLAGS) by { assert DEVICE_FLAGS == 0x17; }
    hide GuestLeaf, A, D;
    var runs, maps := BootRuns(hartId, image), DeviceMaps(d);
    DeviceMapsAreIdentity(d);
    if DeviceCovered(maps, n) {
      DeviceIdentity(maps, n, View(root, ram, n));
    } else {
      OverlayNone(maps, n, View(root, ram, n));
      if LastRun(runs, n).None? {
        UnplannedTraps(root, ram, tables, frames, rom, runs, maps, n);
      } else {
        BootFlags(hartId, image, LastRun(runs, n).value);
      }
    }
  }

  /** The initrd region of guest_image/host.dts (lines 93-94) covers the guest's entry page. */
  lemma HostInitrdCoversEntry()
    ensures Covers(RegionMap(Region(0x8800_0000, 0x9812_b230 - 0x8800_0000)), GuestBegin(0) / PAGE_SIZE)
  {
    var m := RegionMap(Region(0x8800_0000, 0x1012_b230));
    assert Level(m) == 1 && Steps(m) == 129;
  }

  /** So with that device tree the guest is entered at a page of the initrd, not at the page loaded for it. */
  lemma HostInitrdReplacesEntry(root: nat, ram: Tables, tables: Tables, frames: Frames, rom: Rom, runs: seq<Run>,
                                d: Devices)
    requires Ready(root, ram, tables, frames, rom, runs, DeviceMaps(d))
    requires d.initrd == Region(0x8800_0000, 0x9812_b230 - 0x8800_0000)
    ensures GTranslate(root, tables, GuestBegin(0)) == Some(GuestBegin(0))
  {
    hide Ready, Covers, GTranslate;
    HostInitrdCoversEntry();
    assert DeviceMaps(d)[|d.virtio| + 1] == RegionMap(d.initrd);
    DeviceAddressIdentity(root, ram, tables, frames, rom, runs, d, GuestBegin(0));
  }
}
