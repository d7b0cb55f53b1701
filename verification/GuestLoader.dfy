/** `map_guest_dtb`, `load_guest_elf` and `filling_memory_region` (src/guest.rs). */
module GuestLoader {
  import opened Bits
  import opened PageTable
  import opened GStageTree
  import opened MemoryMaps
  import opened Sv39x4
  import opened GuestMemory

  const DRAM_BASE: nat := 0x8000_0000
  const DRAM_SIZE_PER_GUEST: nat := 0x1000_0000
  const GUEST_DTB_SIZE_PER_HART: nat := 0x2000
  const PT_LOAD: nat := 1

  /** The fields of an ELF program header that the loader reads. */
  datatype Segment = Segment(pType: nat, pFlags: nat, pOffset: nat, pPaddr: nat, pFilesz: nat, pAlign: nat)

  // Entry flags: distinct bits, so the source's bitwise or of each list is a sum.
  const READ_ONLY: nat := DIRTY + ACCESSED + READ + USER + VALID
  const READ_WRITE: nat := DIRTY + ACCESSED + WRITE + READ + USER + VALID
  const ALL: nat := DIRTY + ACCESSED + EXEC + WRITE + READ + USER + VALID

  /** `(size + (align - 1)) & !(align - 1)`. */
  function AlignSize(size: nat, align: nat): nat
    requires align > 0 && size + (align - 1) < WORD
  {
    And(size + (align - 1), Not(align - 1))
  }

  /** For a power of two, `AlignSize` is the least multiple of `align` that is not below `size`. */
  lemma AlignSizeMeaning(size: nat, k: nat)
    requires k <= 64 && size + (Pow2(k) - 1) < WORD
    ensures var r := AlignSize(size, Pow2(k));
            r % Pow2(k) == 0 && size <= r < size + Pow2(k)
  {
    hide And, Pow2;
    Pow2Table();
    var a := Pow2(k);
    var x := size + (a - 1);
    AndNotMask(x, k, 64);
    RoundDown(x, a);
  }

  lemma RoundDown(x: nat, a: nat)
    requires a > 0
    ensures 0 <= x - x % a && (x - x % a) % a == 0
  {
    DivNonNegative(x, a);
    DivModUnique(x - x % a, a, x / a, 0);
  }

  predicate Loadable(s: Segment) {
    s.pType == PT_LOAD && s.pFilesz > 0
  }

  /** Entry flags for `p_flags & 0b111`; executable and writable segments get every permission. */
  function SegmentFlags(pFlags: nat): (r: Option<nat>)
    ensures r.Some? ==> r.value < 256 && GuestLeaf(r.value)
  {
    match pFlags % 8
    case 4 => Some(READ_ONLY)
    case 5 => Some(ALL)
    case 6 => Some(ALL)
    case 7 => Some(ALL)
    case _ => None
  }

  /** Which `p_flags` are supported, and the permissions they get: only a read-only segment is neither
      writable nor executable. */
  lemma SegmentPermissions(pFlags: nat)
    ensures SegmentFlags(pFlags).Some? <==> pFlags % 8 >= 4
    ensures SegmentFlags(pFlags).Some? ==>
              var e := SegmentFlags(pFlags).value;
              && V(e) && R(e) && (W(e) <==> pFlags % 8 != 4) && (X(e) <==> pFlags % 8 != 4)
  {
    assert READ_ONLY == 0xd3 && ALL == 0xdf;
  }

  /** Pages the segment loop visits. */
  function SegmentPages(s: Segment): nat
    requires s.pAlign > 0 && s.pFilesz + (s.pAlign - 1) < WORD
  {
    StepCount(AlignSize(s.pFilesz, s.pAlign), PAGE_SIZE)
  }

  /** The header fields do not overflow the address arithmetic of the loader. */
  predicate SegmentFits(dramBase: nat, s: Segment) {
    && s.pFilesz + s.pAlign <= WORD
    && (s.pAlign >= PAGE_SIZE ==> dramBase + s.pPaddr + SegmentPages(s) * PAGE_SIZE <= PAGES * PAGE_SIZE)
  }

  /** The run of pages that loads segment `s`. */
  function SegmentRun(dramBase: nat, elfAddr: nat, s: Segment): Run
    requires s.pAlign > 0 && s.pFilesz + (s.pAlign - 1) < WORD && SegmentFlags(s.pFlags).Some?
  {
    Run(dramBase + s.pPaddr, SegmentPages(s), Some(elfAddr + s.pOffset), SegmentFlags(s.pFlags).value)
  }

  predicate SegmentOk(s: Segment) {
    Loadable(s) ==> s.pAlign >= PAGE_SIZE && s.pFilesz + (s.pAlign - 1) < WORD && SegmentFlags(s.pFlags).Some?
  }

  /** The runs of all loadable segments, in order. */
  function ElfRuns(dramBase: nat, elfAddr: nat, segments: seq<Segment>): seq<Run>
    requires forall s <- segments :: SegmentOk(s)
  {
    if segments == [] then []
    else
      var s := segments[|segments| - 1];
      assert SegmentOk(s);
      ElfRuns(dramBase, elfAddr, segments[..|segments| - 1])
      + (if Loadable(s) then [SegmentRun(dramBase, elfAddr, s)] else [])
  }

  // Several runs after another.

  function LastRun(runs: seq<Run>, n: nat): (r: Option<Run>)
    ensures r.Some? ==> r.value in runs && InRun(r.value, n)
    ensures r.None? ==> forall run <- runs :: !InRun(run, n)
  {
    if runs == [] then None
    else if InRun(runs[|runs| - 1], n) then Some(runs[|runs| - 1])
    else LastRun(runs[..|runs| - 1], n)
  }

  /** The end of the last page of any run. */
  function EndOf(runs: seq<Run>): (end: nat)
    ensures forall run <- runs :: run.count > 0 ==> run.gpa + run.count * PAGE_SIZE <= end
    ensures end == 0 || exists run <- runs :: run.count > 0 && run.gpa + run.count * PAGE_SIZE == end
  {
    if runs == [] then 0
    else
      var run := runs[|runs| - 1];
      var end := EndOf(runs[..|runs| - 1]);
      if run.count > 0 && run.gpa + run.count * PAGE_SIZE > end then run.gpa + run.count * PAGE_SIZE else end
  }

  /** The address space after `runs`: each page as the last run over it asks, the others as before. */
  ghost predicate Planned(root: nat, tables0: Tables, frames0: Frames, tables: Tables, frames: Frames, rom: Rom,
                          runs: seq<Run>)
  {
    forall n: nat :: n < PAGES ==>
      match LastRun(runs, n)
      case Some(run) => Backed(root, tables, frames, frames0, rom, run, n)
      case None => View(root, tables, n) == View(root, tables0, n)
  }

  lemma {:induction false} LastRunConcat(runs: seq<Run>, more: seq<Run>, n: nat)
    ensures LastRun(runs + more, n) == if LastRun(more, n).Some? then LastRun(more, n) else LastRun(runs, n)
  {
    hide InRun;
    if more == [] {
      assert runs + more == runs;
    } else {
      var init := more[..|more| - 1];
      LastRunConcat(runs, init, n);
      assert (runs + more)[..|runs + more| - 1] == runs + init;
    }
  }

  /** Running `more` after `runs` is running both. */
  lemma PlannedConcat(root: nat, tables0: Tables, frames0: Frames, tables1: Tables, frames1: Frames, tables2: Tables,
                      frames2: Frames, rom: Rom, runs: seq<Run>, more: seq<Run>)
    requires Planned(root, tables0, frames0, tables1, frames1, rom, runs)
    requires Planned(root, tables1, frames1, tables2, frames2, rom, more)
    requires Extends(frames0, frames1) && Extends(frames1, frames2)
    ensures Planned(root, tables0, frames0, tables2, frames2, rom, runs + more)
  {
    hide View, PageOf, LastRun;
    forall n: nat | n < PAGES
      ensures match LastRun(runs + more, n)
              case Some(run) => Backed(root, tables2, frames2, frames0, rom, run, n)
              case None => View(root, tables2, n) == View(root, tables0, n)
    {
      LastRunConcat(runs, more, n);
    }
  }

  lemma PlannedRun(root: nat, tables0: Tables, frames0: Frames, tables: Tables, frames: Frames, rom: Rom, run: Run)
    requires RunDone(root, tables0, frames0, tables, frames, rom, run, run.count)
    ensures Planned(root, tables0, frames0, tables, frames, rom, [run])
  {
    hide View, PageOf, Backed;
    forall n: nat
      ensures LastRun([run], n) == if InRun(run, n) then Some(run) else None
    {
      assert LastRun([run][..0], n) == None;
    }
  }

  // Frames used.

  ghost predicate RunsDisjoint(runs: seq<Run>) {
    forall i, j, n: nat :: 0 <= i < j < |runs| && InRun(runs[i], n) ==> !InRun(runs[j], n)
  }

  ghost predicate AllVacant(root: nat, tables: Tables, runs: seq<Run>) {
    forall run <- runs :: Vacant(root, tables, run)
  }

  lemma NextVacant(root: nat, tables0: Tables, frames0: Frames, tables: Tables, frames: Frames, rom: Rom,
                   runs: seq<Run>, run: Run)
    requires Planned(root, tables0, frames0, tables, frames, rom, runs)
    requires RunsDisjoint(runs + [run]) && AllVacant(root, tables0, runs + [run])
    ensures Vacant(root, tables, run) && RunsDisjoint(runs) && AllVacant(root, tables0, runs)
  {
    hide View, PageOf, Backed, LastRun;
    var all := runs + [run];
    assert forall i :: 0 <= i < |runs| ==> all[i] == runs[i];
    assert all[|runs|] == run && run in all;
    forall n: nat | n < PAGES && InRun(run, n)
      ensures LastRun(runs, n) == None
    {
    }
    assert forall r <- runs :: r in all;
  }

  predicate AlignedRuns(runs: seq<Run>) {
    forall run <- runs :: run.count > 0 ==> run.gpa % PAGE_SIZE == 0
  }

  /** What a sequence of runs has made of the guest's memory: the pages it planned are in place, its
      frames are new, no frame is shared if none was, and none is wasted if the runs do not overlap. */
  ghost predicate Built(root: nat, tables0: Tables, frames0: Frames, tables: Tables, frames: Frames, rom: Rom,
                        runs: seq<Run>)
  {
    && Extends(frames0, frames) && AlignedRuns(runs)
    && Planned(root, tables0, frames0, tables, frames, rom, runs)
    && (AllSmall(root, tables0) ==> AllSmall(root, tables))
    && (Private(root, tables0, frames0) ==> Private(root, tables, frames))
    && (AllUsed(root, tables0, frames0) && RunsDisjoint(runs) && AllVacant(root, tables0, runs) ==>
          AllUsed(root, tables, frames))
  }

  lemma BuiltNone(root: nat, tables: Tables, frames: Frames, rom: Rom)
    ensures Built(root, tables, frames, tables, frames, rom, [])
  {
  }

  lemma BuiltStep(root: nat, tables0: Tables, frames0: Frames, tables1: Tables, frames1: Frames, tables2: Tables,
                  frames2: Frames, rom: Rom, runs: seq<Run>, run: Run)
    requires Built(root, tables0, frames0, tables1, frames1, rom, runs)
    requires Extends(frames1, frames2) && (run.count > 0 ==> run.gpa % PAGE_SIZE == 0)
    requires RunDone(root, tables1, frames1, tables2, frames2, rom, run, run.count)
    requires AllSmall(root, tables1) ==> AllSmall(root, tables2)
    requires Private(root, tables1, frames1) ==> Private(root, tables2, frames2)
    requires AllUsed(root, tables1, frames1) && Vacant(root, tables1, run) ==> AllUsed(root, tables2, frames2)
    ensures Built(root, tables0, frames0, tables2, frames2, rom, runs + [run])
  {
    hide View, Private, AllUsed, AllSmall, Planned, RunDone, Vacant, RunsDisjoint, AllVacant;
    PlannedRun(root, tables1, frames1, tables2, frames2, rom, run);
    PlannedConcat(root, tables0, frames0, tables1, frames1, tables2, frames2, rom, runs, [run]);
    if RunsDisjoint(runs + [run]) && AllVacant(root, tables0, runs + [run]) {
      NextVacant(root, tables0, frames0, tables1, frames1, rom, runs, run);
    }
  }

  /** Pages of earlier runs have small leaves, so a larger one was there from the start. */
  lemma FailureFromStart(mem: HostMemory, o: Outcome, root: nat, tables0: Tables, frames0: Frames, tables: Tables,
                         frames: Frames, rom: Rom, runs: seq<Run>, run: Run)
    requires RunOk(run) && Built(root, tables0, frames0, tables, frames, rom, runs)
    requires RunFailure(mem, o, root, tables, run)
    ensures RunFailure(mem, o, root, tables0, run)
  {
    hide View, PageOf, LastRun, Private, AllUsed, AllSmall;
    if o.LeafAsTable? {
      var n: nat :| InRun(run, n) && Blocked(View(root, tables, n), 0);
      assert n < PAGES;
    }
  }

  /** One more run on top of those already built. */
  method BuildRun(mem: HostMemory, rom: Rom, run: Run, ghost tables0: Tables, ghost frames0: Frames,
                  ghost runs: seq<Run>)
      returns (r: Outcome)
    requires mem.Valid() && RunOk(run)
    requires Built(mem.root, tables0, frames0, mem.tables, mem.frames, rom, runs)
    modifies mem
    ensures mem.Valid() && Extends(old(mem.frames), mem.frames)
    ensures r.Done? ==> Built(mem.root, tables0, frames0, mem.tables, mem.frames, rom, runs + [run])
    ensures !r.Done? ==> RunFailure(mem, r, mem.root, tables0, run)
  {
    hide HeapInv, TreeInv, View, Private, AllUsed, AllSmall, Built, RunDone, Vacant, RunFailure;
    ghost var tables, frames := mem.tables, mem.frames;
    r := MapRun(mem, rom, run);
    if r.Done? {
      BuiltStep(mem.root, tables0, frames0, tables, frames, mem.tables, mem.frames, rom, runs, run);
    } else {
      FailureFromStart(mem, r, mem.root, tables0, frames0, tables, frames, rom, runs, run);
    }
  }

  /** `map_guest_dtb` for a blob of `dtbLen` bytes. The last page copies past the end of the blob, as
      the source does. */
  function DtbRun(dtbAddr: nat, dtbLen: nat, hartId: nat): Run {
    Run(DRAM_BASE + hartId * GUEST_DTB_SIZE_PER_HART, StepCount(dtbLen, PAGE_SIZE), Some(dtbAddr), READ_WRITE)
  }

  /** Every hart's device tree stays in its own 8 KiB slot, below all guest RAM. */
  lemma DtbInSlot(dtbAddr: nat, dtbLen: nat, hartId: nat)
    requires dtbLen < GUEST_DTB_SIZE_PER_HART && hartId < 8
    ensures var run := DtbRun(dtbAddr, dtbLen, hartId);
            && RunOk(run)
            && dtbLen <= run.count * PAGE_SIZE
            && run.gpa + run.count * PAGE_SIZE <= DRAM_BASE + (hartId + 1) * GUEST_DTB_SIZE_PER_HART
            && run.gpa + run.count * PAGE_SIZE <= DRAM_BASE + DRAM_SIZE_PER_GUEST
  {
    assert READ_WRITE == 0xd7;
    assert StepCount(dtbLen, PAGE_SIZE) <= 2;
  }

  method MapGuestDtb(mem: HostMemory, rom: Rom, dtbAddr: nat, dtbLen: nat, hartId: nat) returns (r: Outcome, gpa: nat)
    requires mem.Valid() && dtbLen < GUEST_DTB_SIZE_PER_HART && hartId < 8
    modifies mem
    ensures mem.Valid() && Extends(old(mem.frames), mem.frames)
    ensures gpa == DRAM_BASE + hartId * GUEST_DTB_SIZE_PER_HART
    ensures r.Done? ==> Built(mem.root, old(mem.tables), old(mem.frames), mem.tables, mem.frames, rom,
                              [DtbRun(dtbAddr, dtbLen, hartId)])
    ensures !r.Done? ==> RunFailure(mem, r, mem.root, old(mem.tables), DtbRun(dtbAddr, dtbLen, hartId))
  {
    hide HeapInv, TreeInv, Built, DtbRun, RunFailure;
    gpa := DRAM_BASE + hartId * GUEST_DTB_SIZE_PER_HART;
    DtbInSlot(dtbAddr, dtbLen, hartId);
    BuiltNone(mem.root, mem.tables, mem.frames, rom);
    r := BuildRun(mem, rom, DtbRun(dtbAddr, dtbLen, hartId), mem.tables, mem.frames, []);
    assert [] + [DtbRun(dtbAddr, dtbLen, hartId)] == [DtbRun(dtbAddr, dtbLen, hartId)];
  }

  /** The end of aligned runs is page aligned, so filling starts on a page. */
  lemma EndOfAligned(runs: seq<Run>)
    requires AlignedRuns(runs)
    ensures EndOf(runs) % PAGE_SIZE == 0
  {
    hide EndOf;
    if EndOf(runs) != 0 {
      var run :| run in runs && run.count > 0 && run.gpa + run.count * PAGE_SIZE == EndOf(runs);
      DivModUnique(EndOf(runs), PAGE_SIZE, run.gpa / PAGE_SIZE + run.count, 0);
    }
  }

  /** Outcome of loading: entry point and end of the loaded pages, or the panic that stops it. */
  datatype Load = Loaded(entry: nat, end: nat) | AlignPanic | FlagsPanic | Failed(outcome: Outcome)

  lemma EndOfNext(runs: seq<Run>, run: Run)
    ensures EndOf(runs + [run]) == if run.count > 0 && run.gpa + run.count * PAGE_SIZE > EndOf(runs)
                                   then run.gpa + run.count * PAGE_SIZE else EndOf(runs)
  {
    assert (runs + [run])[..|runs|] == runs;
  }

  lemma ElfRunsNext(dramBase: nat, elfAddr: nat, segments: seq<Segment>, i: nat)
    requires i < |segments| && (forall s <- segments[..i] :: SegmentOk(s)) && SegmentOk(segments[i])
    ensures forall s <- segments[..i + 1] :: SegmentOk(s)
    ensures ElfRuns(dramBase, elfAddr, segments[..i + 1])
         == ElfRuns(dramBase, elfAddr, segments[..i])
            + (if Loadable(segments[i]) then [SegmentRun(dramBase, elfAddr, segments[i])] else [])
  {
    hide SegmentOk, SegmentRun, Loadable;
    assert segments[..i + 1][..i] == segments[..i];
    forall s <- segments[..i + 1]
      ensures SegmentOk(s)
    {
      if s !in segments[..i] { assert s == segments[i]; }
    }
  }

  /** How loading can fail at a page, and at which segment. */
  ghost predicate LoadFailure(mem: HostMemory, o: Outcome, root: nat, tables: Tables, dramBase: nat, elfAddr: nat,
                              segments: seq<Segment>)
    reads mem
  {
    exists s <- segments :: && SegmentOk(s) && Loadable(s)
                            && RunFailure(mem, o, root, tables, SegmentRun(dramBase, elfAddr, s))
  }

  /** `load_guest_elf`. */
  method LoadGuestElf(mem: HostMemory, rom: Rom, elfAddr: nat, segments: seq<Segment>, dramBase: nat) returns (r: Load)
    requires mem.Valid() && forall s <- segments :: Loadable(s) ==> SegmentFits(dramBase, s)
    modifies mem
    ensures mem.Valid() && Extends(old(mem.frames), mem.frames)
    ensures r.AlignPanic? ==> exists s <- segments :: Loadable(s) && s.pAlign < PAGE_SIZE
    ensures r.FlagsPanic? ==> exists s <- segments :: Loadable(s) && SegmentFlags(s.pFlags).None?
    ensures r.Failed? ==> LoadFailure(mem, r.outcome, mem.root, old(mem.tables), dramBase, elfAddr, segments)
    ensures r.Loaded? ==>
              && (forall s <- segments :: SegmentOk(s))
              && var runs := ElfRuns(dramBase, elfAddr, segments);
              && r.entry == dramBase && r.end == EndOf(runs)
              && Built(mem.root, old(mem.tables), old(mem.frames), mem.tables, mem.frames, rom, runs)
  {
    hide HeapInv, TreeInv, Built, SegmentFlags, SegmentPages, ElfRuns, EndOf, RunFailure;
    var elfEnd := 0;
    ElfRunsEmpty(dramBase, elfAddr);
    BuiltNone(mem.root, mem.tables, mem.frames, rom);
    ghost var runs: seq<Run> := [];
    var i := 0;
    while i < |segments|
      invariant 0 <= i <= |segments| && mem.Valid() && Extends(old(mem.frames), mem.frames)
      invariant forall s <- segments[..i] :: SegmentOk(s)
      invariant runs == ElfRuns(dramBase, elfAddr, segments[..i]) && elfEnd == EndOf(runs)
      invariant Built(mem.root, old(mem.tables), old(mem.frames), mem.tables, mem.frames, rom, runs)
    {
      var s := segments[i];
      if Loadable(s) {
        if s.pAlign < PAGE_SIZE { return AlignPanic; }
        var flags := SegmentFlags(s.pFlags);
        if flags.None? { return FlagsPanic; }
        var run := SegmentRun(dramBase, elfAddr, s);
        var o := BuildRun(mem, rom, run, old(mem.tables), old(mem.frames), runs);
        if !o.Done? {
          assert s in segments;
          return Failed(o);
        }
        EndOfNext(runs, run);
        if run.count > 0 && run.gpa + run.count * PAGE_SIZE > elfEnd {
          elfEnd := run.gpa + run.count * PAGE_SIZE;
        }
        runs := runs + [run];
      }
      ElfRunsNext(dramBase, elfAddr, segments, i);
      i := i + 1;
    }
    assert segments[..|segments|] == segments;
    r := Loaded(dramBase, elfEnd);
  }

  lemma ElfRunsEmpty(dramBase: nat, elfAddr: nat)
    ensures ElfRuns(dramBase, elfAddr, []) == [] && EndOf([]) == 0
  {
  }

  /** `filling_memory_region`: fresh, uninitialised pages from `start` up to `end`. */
  function FillRun(start: nat, end: nat): Run {
    Run(start, if start < end then StepCount(end - start, PAGE_SIZE) else 0, None, ALL)
  }

  method FillingMemoryRegion(mem: HostMemory, rom: Rom, start: nat, end: nat) returns (r: Outcome)
    requires mem.Valid() && RunOk(FillRun(start, end))
    modifies mem
    ensures mem.Valid() && Extends(old(mem.frames), mem.frames)
    ensures r.Done? ==> Built(mem.root, old(mem.tables), old(mem.frames), mem.tables, mem.frames, rom,
                              [FillRun(start, end)])
    ensures !r.Done? ==> RunFailure(mem, r, mem.root, old(mem.tables), FillRun(start, end))
  {
    hide HeapInv, TreeInv, Built, FillRun, RunOk, RunFailure;
    BuiltNone(mem.root, mem.tables, mem.frames, rom);
    r := BuildRun(mem, rom, FillRun(start, end), mem.tables, mem.frames, []);
    assert [] + [FillRun(start, end)] == [FillRun(start, end)];
  }
}
