/** The G-stage page table: its builder and its software walker
    (src/memmap/page_table/sv39x4.rs), over a host memory holding tables, guest frames and a
    heap of free pages (src/main.rs). */
module Sv39x4 {
  import opened Bits
  import opened PageTable
  import opened GStageTree
  import opened MemoryMaps
  import opened Csrs
  import opened Reassembly

  type Byte = x: int | 0 <= x < 256

  /** How a builder call ends. `Done` is the normal return. The `assert!`s of the source and a
      failed allocation stop the hypervisor. `LeafAsTable` is a write through a leaf that the
      source takes for a table pointer; the source has no check for it. */
  datatype Outcome =
    | Done
    | RootMisaligned
    | LengthMismatch
    | VirtMisaligned
    | PhysMisaligned
    | OutOfMemory
    | LeafAsTable

  /** The first `assert!` a range fails, or `Done` if it passes them all. */
  function Verdict(m: MemoryMap): (r: Outcome)
    ensures r.Done? <==> Accepted(m)
    ensures r.Done? || r.LengthMismatch? || r.VirtMisaligned? || r.PhysMisaligned?
  {
    if VirtLen(m) != m.physEnd - m.physStart then LengthMismatch
    else if m.virtStart % Size(Level(m)) != 0 then VirtMisaligned
    else if m.physStart % Size(Level(m)) != 0 then PhysMisaligned
    else Done
  }

  /** How the software walker ends. `WildTable` stands for a read through an address that is no table: the
      source makes it unchecked, and goes on with whatever it finds there. `Unreachable` is the
      `unreachable!()` after the last level. */
  datatype Translation =
    | Address(address: nat)
    | ModeAssert
    | AlignmentAssert
    | WildTable
    | Unreachable

  /** `vpn(level)` of a guest-physical address. */
  function Vpn(address: nat, level: nat): nat
    requires level <= 2
  {
    match level
    case 2 => And(Shr(address, 30), 0x7ff)
    case 1 => And(Shr(address, 21), 0x1ff)
    case _ => And(Shr(address, 12), 0x1ff)
  }

  lemma VpnMeaning(address: nat, level: nat)
    requires level <= 2
    ensures Vpn(address, level) == Index(level, address / PAGE_SIZE)
  {
    hide And;
    Pow2Table();
    DivDiv(address, 0x1000, 0x200);
    DivDiv(address, 0x1000, 0x4_0000);
    AndMask(address / 0x4000_0000, 11);
    AndMask(address / 0x20_0000, 9);
    AndMask(address / 0x1000, 9);
  }

  /** The offset within a page of `level` is the 4 KiB page within it and the byte within that. */
  lemma OffsetSplit(level: nat, gpa: nat)
    requires level <= 2
    ensures gpa % Size(level) == ((gpa / PAGE_SIZE) % PAGES % Span(level)) * PAGE_SIZE + gpa % PAGE_SIZE
  {
    var m := gpa / PAGE_SIZE;
    if level == 2 {
      DivDiv(gpa, PAGE_SIZE, 0x4_0000);
      ModMod(m, 0x4_0000, 2048);
    } else if level == 1 {
      DivDiv(gpa, PAGE_SIZE, 512);
      ModMod(m, 512, 0x10_0000);
    }
  }

  /** The page of host memory starting at `src`. */
  function PageOf(rom: nat -> Byte, src: nat): (page: seq<Byte>)
    ensures |page| == PAGE_SIZE
  {
    seq(PAGE_SIZE, i requires 0 <= i < PAGE_SIZE => rom(src + i))
  }

  /** A leaf met on the path is created and aligned, and yields the translation of every address of the page. */
  lemma PathLeaf(root: nat, tables: Tables, nodes: map<Node, nat>, level: nat, n: nat, gpa: nat)
    requires TreeInv(root, tables, nodes) && level <= 2 && n == (gpa / PAGE_SIZE) % PAGES && NodeOf(level, n) in nodes
    requires IsLeaf(tables[nodes[NodeOf(level, n)]][Index(level, n)])
    ensures LeafTarget(level, tables[nodes[NodeOf(level, n)]][Index(level, n)], gpa) == GTranslate(root, tables, gpa)
    ensures GTranslate(root, tables, gpa).Some?
  {
    hide V, R, W, X, Ppn, Flags, Index, Span, IsLeaf, AlreadyCreated, EntirePpn;
    var k := NodeOf(level, n);
    var e := tables[nodes[k]][Index(level, n)];
    assert EntryOk(nodes, k, Index(level, n), e);
    DecodeMeaning(e);
    ZeroBits();
    WalkReaches(root, tables, nodes, level, n);
    OffsetSplit(level, gpa);
  }

  /** The page at `a` is not one of the four pages of the root table. */
  predicate OffRoot(root: nat, a: nat) {
    a + PAGE_SIZE <= root || root + 8 * FIRST_LV_PAGE_TABLE_LEN <= a
  }

  /** The heap hands out page-aligned pages that hold neither a table nor a guest frame, nor a part of the
      root. */
  ghost predicate HeapInv(root: nat, free: seq<nat>, tables: Tables, frames: map<nat, seq<Byte>>) {
    && (forall a <- free :: TableAddress(a) && OffRoot(root, a) && a !in tables && a !in frames)
    && (forall i, j :: 0 <= i < j < |free| ==> free[i] != free[j])
    && tables.Keys !! frames.Keys
    && 0 !in tables && root in tables && |tables[root]| == FIRST_LV_PAGE_TABLE_LEN && TableAddress(root)
    && (forall t <- tables :: t == root || (TableAddress(t) && OffRoot(root, t) && |tables[t]| == PAGE_TABLE_LEN))
    && (forall f <- frames :: TableAddress(f) && OffRoot(root, f) && |frames[f]| == PAGE_SIZE)
  }

  lemma PagesApart(a: nat, b: nat)
    requires a % PAGE_SIZE == 0 && b % PAGE_SIZE == 0 && a != b
    ensures a + PAGE_SIZE <= b || b + PAGE_SIZE <= a
  {
  }

  /** Tables, guest frames and free pages share no byte of host memory. */
  lemma HostLayout(root: nat, free: seq<nat>, tables: Tables, frames: map<nat, seq<Byte>>)
    requires HeapInv(root, free, tables, frames)
    ensures forall a <- free :: Outside(tables, a) && a !in frames
    ensures forall f <- frames :: Outside(tables, f)
    ensures forall t, t' :: t in tables && t' in tables && t < t' ==> t + 8 * |tables[t]| <= t'
  {
    forall a | a in free || a in frames
      ensures Outside(tables, a)
    {
      forall t <- tables
        ensures a + PAGE_SIZE <= t || t + 8 * |tables[t]| <= a
      {
        if t != root { PagesApart(a, t); }
      }
    }
    forall t, t' | t in tables && t' in tables && t < t'
      ensures t + 8 * |tables[t]| <= t'
    {
      if t != root && t' != root { PagesApart(t, t'); }
    }
  }

  lemma HeapTakeFrame(root: nat, free: seq<nat>, tables: Tables, frames: map<nat, seq<Byte>>, page: seq<Byte>)
    requires HeapInv(root, free, tables, frames) && free != [] && |page| == PAGE_SIZE
    ensures HeapInv(root, free[1..], tables, frames[free[0] := page])
    ensures free[0] !in frames && TableAddress(free[0])
  {
    assert forall a <- free[1..] :: a in free && a != free[0];
  }

  lemma NoTableAtZero(root: nat, free: seq<nat>, tables: Tables, frames: map<nat, seq<Byte>>)
    requires HeapInv(root, free, tables, frames)
    ensures 0 !in tables
  {
  }

  lemma PathRoot(root: nat, tables: Tables, nodes: map<Node, nat>, n: nat)
    requires TreeInv(root, tables, nodes)
    ensures NodeOf(2, n) in nodes && nodes[NodeOf(2, n)] == root
  {
  }

  lemma HeapTakeTable(root: nat, free: seq<nat>, tables: Tables, frames: map<nat, seq<Byte>>, tables': Tables)
    requires HeapInv(root, free, tables, frames) && free != []
    requires tables'.Keys == tables.Keys + {free[0]} && |tables'[free[0]]| == PAGE_TABLE_LEN
    requires forall t <- tables :: |tables'[t]| == |tables[t]|
    ensures HeapInv(root, free[1..], tables', frames)
  {
    assert forall a <- free[1..] :: a in free && a != free[0];
  }

  class HostMemory {
    /** Address of the root table (`ROOT_PAGE_TABLE`). */
    const root: nat
    /** Free heap pages, in the order the allocator will hand them out. */
    var free: seq<nat>
    /** Page tables by address. */
    var tables: Tables
    /** Frames given to the guest, by address. */
    var frames: map<nat, seq<Byte>>
    /** Where the tables of the tree are. */
    ghost var nodes: map<Node, nat>

    ghost predicate HeapOk()
      reads this
    {
      HeapInv(root, free, tables, frames)
    }

    ghost predicate Valid()
      reads this
    {
      HeapOk() && TreeInv(root, tables, nodes)
    }

    ghost function ViewAt(n: nat): Option<Leaf>
      reads this
    {
      View(root, tables, n)
    }

    constructor (root: nat, heap: seq<nat>, content: seq<nat>)
      requires TableAddress(root) && |content| == FIRST_LV_PAGE_TABLE_LEN
      requires forall a <- heap :: TableAddress(a) && OffRoot(root, a)
      requires forall i, j :: 0 <= i < j < |heap| ==> heap[i] != heap[j]
      ensures this.root == root && free == heap && frames == map[] && HeapOk()
    {
      this.root := root;
      free := heap;
      tables := map[root := content];
      frames := map[];
      nodes := map[];
    }

    /** `initialize_page_table`: zero the root. Nothing is mapped afterwards. */
    method InitializePageTable()
      requires HeapOk()
      modifies this
      ensures Valid() && frames == old(frames) && free == old(free)
      ensures forall n: nat :: n < PAGES ==> View(root, tables, n) == None
    {
      tables := tables[root := EmptyTable(FIRST_LV_PAGE_TABLE_LEN)];
      nodes := map[ROOT := root];
    }

    /** Allocate a zeroed table and point entry `vpn` of the table at `addr` to it. */
    method NewTable(addr: nat, vpn: nat, ghost k: Node) returns (below: nat)
      requires Valid() && k in nodes && nodes[k] == addr && k.level > 0 && vpn < Len(k.level)
      requires tables[addr][vpn] == 0 && free != []
      modifies this
      ensures Valid() && frames == old(frames)
      ensures Child(k, vpn) in nodes && nodes[Child(k, vpn)] == below
      ensures SameView(root, old(tables), tables)
    {
      below := free[0];
      HangTable(root, tables, nodes, k, vpn, below);
      ghost var before := tables;
      tables := Hang(tables, addr, vpn, below, NewEntry(below / PAGE_SIZE, VALID));
      nodes := nodes[Child(k, vpn) := below];
      HeapTakeTable(root, free, before, frames, tables);
      free := free[1..];
    }

    /** Write the leaf for `vStart` into the table at `addr`. */
    method WriteLeaf(vStart: nat, pStart: nat, target: nat, flags: nat, addr: nat)
      requires Valid() && target <= 2
      requires vStart < PAGES * PAGE_SIZE
      requires pStart % Size(target) == 0 && pStart < PHYS_LIMIT
      requires flags < 256 && LeafEntry(flags)
      requires NodeOf(target, vStart / PAGE_SIZE) in nodes && nodes[NodeOf(target, vStart / PAGE_SIZE)] == addr
      modifies this
      ensures Valid() && frames == old(frames) && free == old(free)
      ensures Installed(root, old(tables), tables, target, vStart / PAGE_SIZE, pStart / PAGE_SIZE, flags)
    {
      var vpn := Vpn(vStart, target);
      VpnMeaning(vStart, target);
      AlignedPage(pStart, target);
      LeafWrite(root, tables, nodes, target, vStart / PAGE_SIZE, pStart / PAGE_SIZE, flags);
      tables := SetEntry(tables, addr, vpn, NewEntry(pStart / PAGE_SIZE, flags));
      nodes := Prune(nodes, NodeOf(target, vStart / PAGE_SIZE), vpn);
    }

    /** The walk-or-allocate loop for one page of the target level. */
    method MapPage(vStart: nat, pStart: nat, target: nat, flags: nat) returns (r: Outcome)
      requires Valid() && target <= 2
      requires vStart < PAGES * PAGE_SIZE
      requires pStart % Size(target) == 0 && pStart < PHYS_LIMIT
      requires flags < 256 && LeafEntry(flags)
      modifies this
      ensures Valid() && frames == old(frames)
      ensures r.Done? || r.OutOfMemory? || r.LeafAsTable?
      ensures r.Done? ==>
                Installed(root, old(tables), tables, target, vStart / PAGE_SIZE, pStart / PAGE_SIZE, flags)
      ensures !r.Done? ==> SameView(root, old(tables), tables)
      ensures r.LeafAsTable? <==> Blocked(old(ViewAt(vStart / PAGE_SIZE)), target)
      ensures r.OutOfMemory? ==> free == []
    {
      hide HeapInv, TreeInv, View, Vpn, IsLeaf, EntirePpn, AlreadyCreated, Index;
      ghost var n0 := vStart / PAGE_SIZE;
      PathRoot(root, tables, nodes, n0);
      var level := 2;
      var addr := root;
      while level > target
        invariant Valid() && frames == old(frames) && target <= level <= 2
        invariant NodeOf(level, n0) in nodes && nodes[NodeOf(level, n0)] == addr
        invariant SameView(root, old(tables), tables)
        decreases level
      {
        PathTable(root, tables, nodes, level, n0);
        PathEntry(root, tables, nodes, level, n0);
        NodeOfChild(level - 1, n0);
        VpnMeaning(vStart, level);
        var vpn := Vpn(vStart, level);
        var e := tables[addr][vpn];
        if AlreadyCreated(e) {
          if IsLeaf(e) {
            return LeafAsTable;
          }
          addr := EntirePpn(e) * PAGE_SIZE;
        } else {
          if free == [] {
            return OutOfMemory;
          }
          addr := NewTable(addr, vpn, NodeOf(level, n0));
        }
        level := level - 1;
      }
      PathEntry(root, tables, nodes, target, n0);
      WriteLeaf(vStart, pStart, target, flags, addr);
      r := Done;
    }

    /** Step `k` of the loop over a range. */
    method MapStep(m: MemoryMap, k: nat, ghost before: Tables) returns (r: Outcome)
      requires Valid() && Mappable(m) && Accepted(m) && k < Steps(m)
      requires Ranged(root, before, tables, m, k) && Unblocked(root, before, m, k)
      modifies this
      ensures Valid() && frames == old(frames)
      ensures r.Done? || r.OutOfMemory? || r.LeafAsTable?
      ensures r.Done? ==> Ranged(root, before, tables, m, k + 1) && Unblocked(root, before, m, k + 1)
      ensures r.LeafAsTable? ==> BlockedRange(root, before, m)
      ensures r.OutOfMemory? ==> free == []
    {
      SlotStart(m, k);
      ghost var middle := tables;
      assert View(root, middle, PageAt(m, k)) == View(root, before, PageAt(m, k));
      r := MapPage(VirtAt(m, k), PhysAt(m, k), Level(m), m.flags);
      if r.Done? {
        RangedStep(root, before, middle, tables, m, k);
        UnblockedStep(root, before, m, k);
      }
    }

    /** One range: the checks, the choice of page size, and a page per step. */
    method MapRange(m: MemoryMap) returns (r: Outcome)
      requires Valid() && Mappable(m)
      modifies this
      ensures Valid() && frames == old(frames)
      ensures !Accepted(m) ==> r == Verdict(m)
      ensures Accepted(m) ==> r.Done? || r.OutOfMemory? || r.LeafAsTable?
      ensures r.Done? ==> Ranged(root, old(tables), tables, m, Steps(m)) && !BlockedRange(root, old(tables), m)
      ensures r.Done? ==> InLargestPages(root, tables, m)
      ensures r.LeafAsTable? ==> BlockedRange(root, old(tables), m)
      ensures r.OutOfMemory? ==> free == []
    {
      if VirtLen(m) != m.physEnd - m.physStart { return LengthMismatch; }
      var level := LevelFor(VirtLen(m));
      if m.virtStart % Size(level) != 0 { return VirtMisaligned; }
      if m.physStart % Size(level) != 0 { return PhysMisaligned; }
      var k := 0;
      while k < Steps(m)
        invariant k <= Steps(m) && Valid() && frames == old(frames)
        invariant Ranged(root, old(tables), tables, m, k) && Unblocked(root, old(tables), m, k)
      {
        r := MapStep(m, k, old(tables));
        if !r.Done? {
          return;
        }
        k := k + 1;
      }
      RangedSizes(root, old(tables), tables, m);
      r := Done;
    }

    /** `generate_page_table`: the address space becomes the overlay of all the ranges, in order. */
    method GeneratePageTable(maps: seq<MemoryMap>) returns (r: Outcome)
      requires Valid() && forall m <- maps :: Mappable(m)
      modifies this
      ensures Valid() && frames == old(frames)
      ensures r.RootMisaligned? <==> root % 0x4000 != 0
      ensures r.Done? ==> Overlaid(root, old(tables), tables, maps) && AllInLargestPages(root, tables, maps)
      ensures r.Done? ==> forall i :: 0 <= i < |maps| ==> Accepted(maps[i]) && !BlockedAt(root, old(tables), maps, i)
      ensures r.LengthMismatch? || r.VirtMisaligned? || r.PhysMisaligned? ==> exists m <- maps :: r == Verdict(m)
      ensures r.LeafAsTable? ==> exists i :: 0 <= i < |maps| && BlockedAt(root, old(tables), maps, i)
      ensures r.OutOfMemory? ==> free == []
    {
      hide HeapInv, TreeInv, View, Steps, BlockedAt, Overlaid, Accepted, Verdict, AllInLargestPages, InLargestPages;
      if root % 0x4000 != 0 { return RootMisaligned; }
      OverlaidEmpty(root, tables);
      var i := 0;
      while i < |maps|
        invariant 0 <= i <= |maps| && Valid() && frames == old(frames)
        invariant Overlaid(root, old(tables), tables, maps[..i])
        invariant forall j :: 0 <= j < i ==> Accepted(maps[j]) && !BlockedAt(root, old(tables), maps, j)
      {
        ghost var before := tables;
        BlockedNow(root, old(tables), before, maps, i);
        r := MapRange(maps[i]);
        if !r.Done? {
          return;
        }
        OverlaidStep(root, old(tables), before, tables, maps, i);
        i := i + 1;
      }
      assert maps[..|maps|] == maps;
      OverlaidSizes(root, old(tables), tables, maps);
      r := Done;
    }

    /** `trans_addr`: on a tree of the builder's making, the software walk finds the hardware's
        translation for every mapped address, and leaves the tree or panics on an unmapped one. */
    method TransAddr(hgatp: nat, gpa: nat) returns (r: Translation)
      requires Valid() && AtpPpn(hgatp) * PAGE_SIZE == root
      ensures r.ModeAssert? <==> HgatpMode(hgatp) != SV39X4
      ensures !r.ModeAssert? && GTranslate(root, tables, gpa).Some? ==>
                r == Address(GTranslate(root, tables, gpa).value)
      ensures !r.ModeAssert? && GTranslate(root, tables, gpa).None? ==> r.WildTable? || r.Unreachable?
    {
      hide HeapInv, TreeInv, View, Vpn, IsLeaf, EntirePpn, AlreadyCreated, Leaf3, LeafTarget, AtpPpn, HgatpMode,
           NodeOf, Index;
      ZeroDecoded();
      PathRoot(root, tables, nodes, (gpa / PAGE_SIZE) % PAGES);
      assert 0 !in tables by { NoTableAtZero(root, free, tables, frames); }
      var addr := AtpPpn(hgatp) * PAGE_SIZE;
      if HgatpMode(hgatp) != SV39X4 { return ModeAssert; }
      ghost var n := (gpa / PAGE_SIZE) % PAGES;
      var level: int := 2;
      while level >= 0
        invariant -1 <= level <= 2
        invariant level >= 0 ==> || (NodeOf(level, n) in nodes && nodes[NodeOf(level, n)] == addr)
                                 || (addr == 0 && View(root, tables, n) == None)
        invariant level < 0 ==> View(root, tables, n) == None
      {
        if NodeOf(level, n) in nodes { PathTable(root, tables, nodes, level, n); }
        if addr !in tables || |tables[addr]| != Len(level) { return WildTable; }
        VpnMeaning(gpa, level);
        IndexWrap(level, gpa / PAGE_SIZE);
        var e := tables[addr][Vpn(gpa, level)];
        PathEntry(root, tables, nodes, level, n);
        if IsLeaf(e) {
          Leaf3Meaning(level, e, gpa);
          PathLeaf(root, tables, nodes, level, n, gpa);
          match Leaf3(level, e, gpa)
          case None => return AlignmentAssert;
          case Some(hpa) => return Address(hpa);
        }
        addr := EntirePpn(e) * PAGE_SIZE;
        level := level - 1;
      }
      r := Unreachable;
    }

    /** `PageBlock::alloc`: a fresh, page-aligned frame with arbitrary contents, or heap exhaustion. */
    method AllocBlock() returns (block: Option<nat>)
      requires Valid()
      modifies this
      ensures Valid() && tables == old(tables)
      ensures block.None? ==> frames == old(frames) && free == old(free) == []
      ensures block.Some? ==>
                && block.value !in old(frames) && TableAddress(block.value) && Outside(tables, block.value)
                && exists page: seq<Byte> :: |page| == PAGE_SIZE && frames == old(frames)[block.value := page]
    {
      if free == [] { return None; }
      var page: seq<Byte> :| |page| == PAGE_SIZE by {
        var zeros: seq<Byte> := seq(PAGE_SIZE, _ => 0);
        assert |zeros| == PAGE_SIZE;
      }
      HostLayout(root, free, tables, frames);
      HeapTakeFrame(root, free, tables, frames, page);
      frames := frames[free[0] := page];
      block := Some(free[0]);
      free := free[1..];
    }

    /** `core::ptr::copy` of one page of host memory, starting at `src`, into a frame. */
    method CopyPage(rom: nat -> Byte, src: nat, block: nat)
      requires Valid() && block in frames
      modifies this
      ensures Valid() && tables == old(tables) && free == old(free)
      ensures frames == old(frames)[block := PageOf(rom, src)]
    {
      frames := frames[block := PageOf(rom, src)];
    }
  }

  /** On a 2 MiB page and then a 4 KiB page inside it, the builder does not finish. */
  method SmallInsideLargeStops(mem: HostMemory, flags: nat) returns (r: Outcome)
    requires mem.Valid() && flags < 256 && GuestLeaf(flags)
    modifies mem
    ensures mem.Valid() && (r.LeafAsTable? || r.OutOfMemory? || r.RootMisaligned?)
  {
    hide HeapInv, TreeInv, View, BlockedAt, Overlaid, Mappable;
    LargeThenSmallBlocked(mem.root, mem.tables, flags);
    r := mem.GeneratePageTable(LargeThenSmall(flags));
  }
}
