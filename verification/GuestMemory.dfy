/** Building the guest's memory page by page: device tree, ELF segments and the rest of RAM
    (src/guest.rs). Every loop there allocates a frame, copies a page into it or leaves it as it is,
    and maps it; `Run` describes one such loop. */
module GuestMemory {
  import opened Bits
  import opened PageTable
  import opened GStageTree
  import opened MemoryMaps
  import opened Sv39x4

  type Frames = map<nat, seq<Byte>>
  type Rom = nat -> Byte

  /** `count` consecutive guest pages from `gpa`, copied from host address `src` on, or left uninitialised. */
  datatype Run = Run(gpa: nat, count: nat, src: Option<nat>, flags: nat)

  predicate RunOk(run: Run) {
    && run.gpa + run.count * PAGE_SIZE <= PAGES * PAGE_SIZE
    && run.flags < 256 && GuestLeaf(run.flags)
  }

  function First(run: Run): nat {
    run.gpa / PAGE_SIZE
  }

  predicate InFirst(run: Run, k: nat, n: nat) {
    First(run) <= n < First(run) + k
  }

  predicate InRun(run: Run, n: nat) {
    InFirst(run, run.count, n)
  }

  /** Page `n` is translated, as run `run` asks, to a frame outside `frames0` that holds what the run copies. */
  ghost predicate Backed(root: nat, tables: Tables, frames: Frames, frames0: Frames, rom: Rom, run: Run, n: nat)
    requires First(run) <= n
  {
    match View(root, tables, n)
    case None => false
    case Some(leaf) =>
      var f := leaf.page * PAGE_SIZE;
      && leaf.flags == run.flags && leaf.level == 0
      && f in frames && f !in frames0
      && (run.src.Some? ==> frames[f] == PageOf(rom, run.src.value + (n - First(run)) * PAGE_SIZE))
  }

  ghost predicate Extends(frames0: Frames, frames: Frames) {
    forall f <- frames0 :: f in frames && frames[f] == frames0[f]
  }

  /** The first `k` pages of the run are in place, and no other page has changed. */
  ghost predicate RunDone(root: nat, tables0: Tables, frames0: Frames, tables: Tables, frames: Frames,
                          rom: Rom, run: Run, k: nat)
  {
    forall n: nat :: n < PAGES ==>
      if InFirst(run, k, n) then Backed(root, tables, frames, frames0, rom, run, n)
      else View(root, tables, n) == View(root, tables0, n)
  }

  /** Frame `f` serves page `n`. */
  ghost predicate Serves(root: nat, tables: Tables, f: nat, n: nat) {
    n < PAGES && View(root, tables, n).Some? && View(root, tables, n).value.page * PAGE_SIZE == f
  }

  /** Every mapped page has a guest frame, and no two share one. */
  ghost predicate Private(root: nat, tables: Tables, frames: Frames) {
    && (forall f: nat, n: nat :: Serves(root, tables, f, n) ==> f in frames)
    && (forall f: nat, n: nat, n': nat :: Serves(root, tables, f, n) && Serves(root, tables, f, n') ==> n == n')
  }

  /** No frame is left over. */
  ghost predicate AllUsed(root: nat, tables: Tables, frames: Frames) {
    forall f <- frames :: exists n: nat :: Serves(root, tables, f, n)
  }

  lemma SinglePage(root: nat, tables: Tables, tables': Tables, m: MemoryMap)
    requires m.virtEnd == m.virtStart + PAGE_SIZE && m.physEnd == m.physStart + PAGE_SIZE
    requires Overlaid(root, tables, tables', [m])
    ensures Installed(root, tables, tables', 0, m.virtStart / PAGE_SIZE, m.physStart / PAGE_SIZE, m.flags)
  {
    hide View;
    assert Level(m) == 0 && Steps(m) == 1;
    forall n: nat | n < PAGES
      ensures View(root, tables', n)
           == if n == m.virtStart / PAGE_SIZE then Some(Leaf(m.physStart / PAGE_SIZE, m.flags, 0))
                                        else View(root, tables, n)
    {
      assert Overlay([m][..0], n, View(root, tables, n)) == View(root, tables, n);
    }
  }

  lemma PageRequest(gpa: nat, f: nat, flags: nat)
    requires gpa + PAGE_SIZE <= PAGES * PAGE_SIZE && TableAddress(f) && flags < 256 && GuestLeaf(flags)
    ensures var m := Request(gpa, gpa + PAGE_SIZE, f, f + PAGE_SIZE, flags);
            Mappable(m) && Verdict(m) == if gpa % PAGE_SIZE == 0 then Done else VirtMisaligned
  {
  }

  /** A 4 KiB request is blocked exactly when a larger leaf translates its page. */
  lemma SinglePageBlocked(root: nat, tables: Tables, m: MemoryMap)
    requires m.virtEnd == m.virtStart + PAGE_SIZE && m.virtEnd <= PAGES * PAGE_SIZE
    ensures BlockedAt(root, tables, [m], 0) <==> Blocked(View(root, tables, m.virtStart / PAGE_SIZE), 0)
  {
    hide View;
    assert Level(m) == 0 && Steps(m) == 1;
    var n0 := m.virtStart / PAGE_SIZE;
    forall n: nat
      ensures Covers(m, n) <==> n == n0
      ensures Overlay([m][..0], n, View(root, tables, n)) == View(root, tables, n)
    {
    }
  }

  /** How a page can fail to be mapped: misaligned root or page, exhausted heap, or a larger leaf. */
  ghost predicate PageFailure(mem: HostMemory, o: Outcome, root: nat, tables: Tables, gpa: nat)
    reads mem
  {
    match o
    case Done => false
    case RootMisaligned => root % 0x4000 != 0
    case VirtMisaligned => gpa % PAGE_SIZE != 0
    case OutOfMemory => mem.free == []
    case LeafAsTable => Blocked(View(root, tables, gpa / PAGE_SIZE), 0)
    case _ => false
  }

  /** Allocate a frame, copy a page into it if there is one to copy, and map it at `gpa`. */
  method MapFresh(mem: HostMemory, rom: Rom, gpa: nat, src: Option<nat>, flags: nat) returns (r: Outcome, ghost f: nat)
    requires mem.Valid() && gpa + PAGE_SIZE <= PAGES * PAGE_SIZE && flags < 256 && GuestLeaf(flags)
    modifies mem
    ensures mem.Valid() && Extends(old(mem.frames), mem.frames)
    ensures r.Done? ==>
              && gpa % PAGE_SIZE == 0 && f % PAGE_SIZE == 0
              && f !in old(mem.frames) && mem.frames.Keys == old(mem.frames).Keys + {f}
              && (src.Some? ==> mem.frames[f] == PageOf(rom, src.value))
              && Installed(mem.root, old(mem.tables), mem.tables, 0, gpa / PAGE_SIZE, f / PAGE_SIZE, flags)
              && !Blocked(View(mem.root, old(mem.tables), gpa / PAGE_SIZE), 0)
    ensures !r.Done? ==> PageFailure(mem, r, mem.root, old(mem.tables), gpa)
  {
    hide HeapInv, TreeInv, View, Overlaid, Installed, BlockedAt, PageOf, Mappable, Accepted, Verdict, Blocked;
    f := 0;
    var block := mem.AllocBlock();
    if block.None? { return OutOfMemory, f; }
    f := block.value;
    if src.Some? { mem.CopyPage(rom, src.value, block.value); }
    var m: MemoryMap := Request(gpa, gpa + PAGE_SIZE, block.value, block.value + PAGE_SIZE, flags);
    PageRequest(gpa, block.value, flags);
    SinglePageBlocked(mem.root, mem.tables, m);
    r := mem.GeneratePageTable([m]);
    if r.Done? {
      SinglePage(mem.root, old(mem.tables), mem.tables, m);
      assert Accepted([m][0]);
    }
  }

  lemma InstalledPage(root: nat, tables: Tables, tables': Tables, s: nat, f: nat, flags: nat, n: nat)
    requires Installed(root, tables, tables', 0, s, f / PAGE_SIZE, flags) && n < PAGES
    ensures View(root, tables', n) == if n == s then Some(Leaf(f / PAGE_SIZE, flags, 0)) else View(root, tables, n)
  {
    hide View;
  }

  lemma RunStep(root: nat, tables0: Tables, frames0: Frames, tables: Tables, frames: Frames, tables': Tables,
                frames': Frames, rom: Rom, run: Run, k: nat, f: nat)
    requires RunDone(root, tables0, frames0, tables, frames, rom, run, k)
    requires Installed(root, tables, tables', 0, First(run) + k, f / PAGE_SIZE, run.flags)
    requires f % PAGE_SIZE == 0 && f in frames' && f !in frames && Extends(frames0, frames) && Extends(frames, frames')
    requires run.src.Some? ==> frames'[f] == PageOf(rom, run.src.value + k * PAGE_SIZE)
    ensures RunDone(root, tables0, frames0, tables', frames', rom, run, k + 1)
  {
    hide View, PageOf, Installed;
    forall n: nat | n < PAGES
      ensures if InFirst(run, k + 1, n) then Backed(root, tables', frames', frames0, rom, run, n)
              else View(root, tables', n) == View(root, tables0, n)
    {
      InstalledPage(root, tables, tables', First(run) + k, f, run.flags, n);
    }
  }

  lemma PrivateStep(root: nat, tables: Tables, frames: Frames, tables': Tables, frames': Frames, s: nat, f: nat,
                    flags: nat)
    requires Private(root, tables, frames)
    requires Installed(root, tables, tables', 0, s, f / PAGE_SIZE, flags)
    requires f % PAGE_SIZE == 0 && f !in frames && frames'.Keys == frames.Keys + {f}
    ensures Private(root, tables', frames')
  {
    hide View, Installed;
    forall g: nat, n: nat | Serves(root, tables', g, n)
      ensures if n == s then g == f else g != f && Serves(root, tables, g, n)
    {
      InstalledPage(root, tables, tables', s, f, flags, n);
      if n != s { assert Serves(root, tables, g, n); }
    }
  }

  /** Mapping a page that was free wastes no frame. */
  lemma AllUsedStep(root: nat, tables: Tables, frames: Frames, tables': Tables, frames': Frames, s: nat, f: nat,
                    flags: nat)
    requires AllUsed(root, tables, frames) && s < PAGES && View(root, tables, s) == None
    requires Installed(root, tables, tables', 0, s, f / PAGE_SIZE, flags)
    requires f % PAGE_SIZE == 0 && frames'.Keys == frames.Keys + {f}
    ensures AllUsed(root, tables', frames')
  {
    hide View, Installed;
    InstalledPage(root, tables, tables', s, f, flags, s);
    assert Serves(root, tables', f, s);
    forall g | g in frames
      ensures exists n: nat :: Serves(root, tables', g, n)
    {
      var n: nat :| Serves(root, tables, g, n);
      InstalledPage(root, tables, tables', s, f, flags, n);
      assert Serves(root, tables', g, n);
    }
  }

  /** Mapping one small page keeps all leaves small. */
  lemma AllSmallStep(root: nat, tables: Tables, tables': Tables, s: nat, f: nat, flags: nat)
    requires AllSmall(root, tables) && Installed(root, tables, tables', 0, s, f / PAGE_SIZE, flags)
    ensures AllSmall(root, tables')
  {
    hide View, Installed;
    forall n: nat | n < PAGES
      ensures View(root, tables', n).Some? ==> View(root, tables', n).value.level == 0
    {
      InstalledPage(root, tables, tables', s, f, flags, n);
    }
  }

  /** None of the first `k` pages of the run was translated by a larger leaf. */
  ghost predicate Unobstructed(root: nat, tables: Tables, run: Run, k: nat) {
    forall n: nat :: InFirst(run, k, n) ==> !Blocked(View(root, tables, n), 0)
  }

  /** How a run can fail; it writes through a leaf only where a larger leaf translates one of its pages. */
  ghost predicate RunFailure(mem: HostMemory, o: Outcome, root: nat, tables: Tables, run: Run)
    reads mem
  {
    match o
    case Done => false
    case RootMisaligned => root % 0x4000 != 0
    case VirtMisaligned => run.gpa % PAGE_SIZE != 0
    case OutOfMemory => mem.free == []
    case LeafAsTable => exists n: nat :: InRun(run, n) && Blocked(View(root, tables, n), 0)
    case _ => false
  }

  /** A run over small leaves never writes through a leaf. */
  lemma SmallNeverObstructs(mem: HostMemory, o: Outcome, root: nat, tables: Tables, run: Run)
    requires RunOk(run) && AllSmall(root, tables) && RunFailure(mem, o, root, tables, run)
    ensures !o.LeafAsTable?
  {
    hide View;
    assert forall n: nat :: InRun(run, n) ==> n < PAGES;
  }

  /** All pages of the run are unmapped. */
  ghost predicate Vacant(root: nat, tables: Tables, run: Run) {
    forall n: nat :: n < PAGES && InRun(run, n) ==> View(root, tables, n) == None
  }

  lemma PageOfRun(run: Run, k: nat)
    requires RunOk(run) && k < run.count
    ensures run.gpa + k * PAGE_SIZE + PAGE_SIZE <= PAGES * PAGE_SIZE
    ensures (run.gpa + k * PAGE_SIZE) / PAGE_SIZE == First(run) + k < PAGES
    ensures (run.gpa + k * PAGE_SIZE) % PAGE_SIZE == run.gpa % PAGE_SIZE
  {
    DivModUnique(run.gpa + k * PAGE_SIZE, PAGE_SIZE, First(run) + k, run.gpa % PAGE_SIZE);
  }

  /** The common loop of `map_guest_dtb`, `load_guest_elf` and `filling_memory_region`. */
  method MapRun(mem: HostMemory, rom: Rom, run: Run) returns (r: Outcome)
    requires mem.Valid() && RunOk(run)
    modifies mem
    ensures mem.Valid() && Extends(old(mem.frames), mem.frames)
    ensures r.Done? ==> RunDone(mem.root, old(mem.tables), old(mem.frames), mem.tables, mem.frames, rom, run, run.count)
    ensures r.Done? && run.count > 0 ==> run.gpa % PAGE_SIZE == 0
    ensures r.Done? && old(Private(mem.root, mem.tables, mem.frames)) ==> Private(mem.root, mem.tables, mem.frames)
    ensures r.Done? && old(AllUsed(mem.root, mem.tables, mem.frames)) && Vacant(mem.root, old(mem.tables), run) ==>
              AllUsed(mem.root, mem.tables, mem.frames)
    ensures r.Done? ==> Unobstructed(mem.root, old(mem.tables), run, run.count)
    ensures r.Done? && AllSmall(mem.root, old(mem.tables)) ==> AllSmall(mem.root, mem.tables)
    ensures !r.Done? ==> RunFailure(mem, r, mem.root, old(mem.tables), run)
  {
    hide HeapInv, TreeInv, View, Installed, PageOf, Private, AllUsed, Backed, AllSmall, Blocked;
    RunStart(mem.root, mem.tables, mem.frames, rom, run);
    var k := 0;
    while k < run.count
      invariant k <= run.count && mem.Valid() && Extends(old(mem.frames), mem.frames)
      invariant k > 0 ==> run.gpa % PAGE_SIZE == 0
      invariant RunDone(mem.root, old(mem.tables), old(mem.frames), mem.tables, mem.frames, rom, run, k)
      invariant old(Private(mem.root, mem.tables, mem.frames)) ==> Private(mem.root, mem.tables, mem.frames)
      invariant old(AllUsed(mem.root, mem.tables, mem.frames)) && Vacant(mem.root, old(mem.tables), run) ==>
                  AllUsed(mem.root, mem.tables, mem.frames)
      invariant Unobstructed(mem.root, old(mem.tables), run, k)
      invariant AllSmall(mem.root, old(mem.tables)) ==> AllSmall(mem.root, mem.tables)
    {
      ghost var tables, frames := mem.tables, mem.frames;
      PageOfRun(run, k);
      ghost var f;
      r, f := MapFresh(mem, rom, run.gpa + k * PAGE_SIZE,
                       if run.src.Some? then Some(run.src.value + k * PAGE_SIZE) else None,
                       run.flags);
      assert !InFirst(run, k, First(run) + k);
      if !r.Done? { return; }
      if AllSmall(mem.root, tables) {
        AllSmallStep(mem.root, tables, mem.tables, First(run) + k, f, run.flags);
      }
      RunStep(mem.root, old(mem.tables), old(mem.frames), tables, frames, mem.tables, mem.frames, rom, run, k, f);
      if Private(mem.root, tables, frames) {
        PrivateStep(mem.root, tables, frames, mem.tables, mem.frames, First(run) + k, f, run.flags);
      }
      if AllUsed(mem.root, tables, frames) && Vacant(mem.root, old(mem.tables), run) {
        AllUsedStep(mem.root, tables, frames, mem.tables, mem.frames, First(run) + k, f, run.flags);
      }
      k := k + 1;
    }
    r := Done;
  }

  lemma RunStart(root: nat, tables: Tables, frames: Frames, rom: Rom, run: Run)
    ensures RunDone(root, tables, frames, tables, frames, rom, run, 0)
  {
  }
}
