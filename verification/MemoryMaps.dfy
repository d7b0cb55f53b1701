/** Mapping requests (src/memmap.rs) and the meaning of a sequence of them for the guest's
    address space. */
module MemoryMaps {
  import opened Bits
  import opened PageTable
  import opened GStageTree

  /** A guest range, a host range and the entry flags. */
  datatype Request = Request(virtStart: nat, virtEnd: nat, physStart: nat, physEnd: nat, flags: nat)

  /** A request whose ranges are not reversed (the length of a reversed range overflows). */
  type MemoryMap = m: Request | m.virtStart <= m.virtEnd && m.physStart <= m.physEnd
    witness Request(0, 0, 0, 0, 0)

  /** `PageTableLevel` chosen from the length of a range. */
  function LevelFor(len: nat): (level: nat)
    ensures level <= 2
  {
    if len <= 0x1f_ffff then 0 else if len <= 0x3fff_ffff then 1 else 2
  }

  /** Bytes translated by a leaf of each level. */
  function LeafBytes(level: nat): nat
    requires level <= 2
  {
    if level == 2 then 0x4000_0000 else if level == 1 then 0x20_0000 else 0x1000
  }

  /** Leaves of `level` are the largest of 4 KiB, 2 MiB and 1 GiB not above `len`, or else 4 KiB. */
  ghost predicate LargestFor(len: nat, level: nat) {
    && level <= 2 && (level > 0 ==> LeafBytes(level) <= len)
    && forall l: nat :: l <= 2 && LeafBytes(l) <= len ==> LeafBytes(l) <= LeafBytes(level)
  }

  /** The page size chosen for a range is the largest not above its length. */
  lemma LevelForLargest(len: nat)
    ensures LargestFor(len, LevelFor(len)) && Size(LevelFor(len)) == LeafBytes(LevelFor(len))
  {
  }

  function VirtLen(m: MemoryMap): nat
  {
    m.virtEnd - m.virtStart
  }

  function Level(m: MemoryMap): (level: nat)
    ensures level <= 2
  {
    LevelFor(VirtLen(m))
  }

  /** Iterations of `(0..len).step_by(step)`. */
  function StepCount(len: nat, step: nat): (k: nat)
    requires step > 0
  {
    (len + step - 1) / step
  }

  function Steps(m: MemoryMap): nat
  {
    StepCount(VirtLen(m), Size(Level(m)))
  }

  /** What the builder needs of a request: proper ranges, permissions the G-stage accepts, and addresses within the
      41-bit guest and 56-bit host spaces after rounding up to the page size in use. */
  predicate Mappable(m: MemoryMap) {
    && m.flags < 256 && GuestLeaf(m.flags)
    && m.virtStart + Steps(m) * Size(Level(m)) <= PAGES * PAGE_SIZE
    && m.physStart + Steps(m) * Size(Level(m)) <= PHYS_LIMIT
  }

  /** The `assert!`s of the builder pass. */
  predicate Accepted(m: MemoryMap)
  {
    && VirtLen(m) == m.physEnd - m.physStart
    && m.virtStart % Size(Level(m)) == 0
    && m.physStart % Size(Level(m)) == 0
  }

  function FirstPage(m: MemoryMap): nat {
    m.virtStart / PAGE_SIZE
  }

  /** The start of step `k`, as a guest page, a guest address and a host address. */
  function PageAt(m: MemoryMap, k: nat): nat
  {
    FirstPage(m) + k * Span(Level(m))
  }

  function VirtAt(m: MemoryMap, k: nat): nat
  {
    m.virtStart + k * Size(Level(m))
  }

  function PhysAt(m: MemoryMap, k: nat): nat
  {
    m.physStart + k * Size(Level(m))
  }

  /** Page `n` lies in the first `k` pages of the size in use. */
  predicate CoversFirst(m: MemoryMap, k: nat, n: nat)
  {
    FirstPage(m) <= n < PageAt(m, k)
  }

  /** Page `n` lies in the range of `m` rounded up to the page size in use. */
  predicate Covers(m: MemoryMap, n: nat)
  {
    CoversFirst(m, Steps(m), n)
  }

  function Image(m: MemoryMap, n: nat): Leaf
    requires FirstPage(m) <= n
  {
    Leaf(m.physStart / PAGE_SIZE + (n - FirstPage(m)), m.flags, Level(m))
  }

  /** The translation of page `n` after `maps`: the last range that covers it, else what it was. */
  function Overlay(maps: seq<MemoryMap>, n: nat, before: Option<Leaf>): Option<Leaf>
  {
    if maps == [] then before
    else if Covers(maps[|maps| - 1], n) then Some(Image(maps[|maps| - 1], n))
    else Overlay(maps[..|maps| - 1], n, before)
  }

  /** A page already translated by a leaf larger than `level`. */
  predicate Blocked(leaf: Option<Leaf>, level: nat) {
    leaf.Some? && leaf.value.level > level
  }

  /** The first `k` pages of `m` have been mapped, and nothing else has changed. */
  ghost predicate Ranged(root: nat, tables: Tables, tables': Tables, m: MemoryMap, k: nat)
  {
    forall n: nat :: n < PAGES ==>
      View(root, tables', n) == if CoversFirst(m, k, n) then Some(Image(m, n)) else View(root, tables, n)
  }

  /** Some page of `m` is translated by a leaf larger than the page size of `m`. */
  ghost predicate BlockedRange(root: nat, tables: Tables, m: MemoryMap)
  {
    exists n: nat :: n < PAGES && Covers(m, n) && Blocked(View(root, tables, n), Level(m))
  }

  /** No page of the first `k` was translated by a larger leaf. */
  ghost predicate Unblocked(root: nat, tables: Tables, m: MemoryMap, k: nat)
  {
    forall n: nat :: n < PAGES && CoversFirst(m, k, n) ==> !Blocked(View(root, tables, n), Level(m))
  }

  lemma AlignedPage(address: nat, level: nat)
    requires level <= 2 && address % Size(level) == 0
    ensures (address / PAGE_SIZE) % Span(level) == 0 && address == (address / PAGE_SIZE) * PAGE_SIZE
    ensures (address / PAGE_SIZE) / Span(level) == address / Size(level)
  {
  }

  /** The translations after `maps`, starting from those of `tables`. */
  ghost predicate Overlaid(root: nat, tables: Tables, tables': Tables, maps: seq<MemoryMap>)
  {
    forall n: nat :: n < PAGES ==> View(root, tables', n) == Overlay(maps, n, View(root, tables, n))
  }

  /** When the builder comes to `maps[i]`, one of its pages is translated by a larger leaf. */
  ghost predicate BlockedAt(root: nat, tables: Tables, maps: seq<MemoryMap>, i: nat)
    requires i < |maps|
  {
    exists n: nat ::
      && n < PAGES && Covers(maps[i], n)
      && Blocked(Overlay(maps[..i], n, View(root, tables, n)), Level(maps[i]))
  }

  lemma OverlaidEmpty(root: nat, tables: Tables)
    ensures Overlaid(root, tables, tables, [])
  {
  }

  lemma OverlaidStep(root: nat, tables: Tables, tables1: Tables, tables2: Tables, maps: seq<MemoryMap>, i: nat)
    requires i < |maps|
    requires Overlaid(root, tables, tables1, maps[..i])
    requires Ranged(root, tables1, tables2, maps[i], Steps(maps[i]))
    ensures Overlaid(root, tables, tables2, maps[..i + 1])
  {
    hide View, Steps, PageAt;
    assert maps[..i + 1][..i] == maps[..i];
  }

  lemma BlockedNow(root: nat, tables: Tables, tables1: Tables, maps: seq<MemoryMap>, i: nat)
    requires i < |maps|
    requires Overlaid(root, tables, tables1, maps[..i])
    ensures BlockedRange(root, tables1, maps[i]) <==> BlockedAt(root, tables, maps, i)
  {
    hide View, Steps, PageAt;
  }

  /** A page covered by `maps[i]` and by nothing later has the translation `maps[i]` asks for. */
  lemma {:induction false} OverlayLast(maps: seq<MemoryMap>, i: nat, n: nat, before: Option<Leaf>)
    requires i < |maps| && Covers(maps[i], n)
    requires forall j :: i < j < |maps| ==> !Covers(maps[j], n)
    ensures Overlay(maps, n, before) == Some(Image(maps[i], n))
  {
    hide Covers;
    if i < |maps| - 1 {
      OverlayLast(maps[..|maps| - 1], i, n, before);
    }
  }

  /** Every page of `m` is translated by leaves of the largest size not above the length of `m`. */
  ghost predicate InLargestPages(root: nat, tables: Tables, m: MemoryMap) {
    forall n: nat :: n < PAGES && Covers(m, n) ==>
      View(root, tables, n).Some? && LargestFor(VirtLen(m), View(root, tables, n).value.level)
  }

  lemma RangedSizes(root: nat, before: Tables, tables: Tables, m: MemoryMap)
    requires Ranged(root, before, tables, m, Steps(m))
    ensures InLargestPages(root, tables, m)
  {
    hide View, LargestFor, LevelFor;
    LevelForLargest(VirtLen(m));
  }

  /** Every page is translated by leaves of the largest size not above the length of the last range over
      it. */
  ghost predicate AllInLargestPages(root: nat, tables: Tables, maps: seq<MemoryMap>) {
    forall i: nat, n: nat ::
      i < |maps| && n < PAGES && Covers(maps[i], n) && (forall j :: i < j < |maps| ==> !Covers(maps[j], n)) ==>
        View(root, tables, n).Some? && LargestFor(VirtLen(maps[i]), View(root, tables, n).value.level)
  }

  lemma OverlaidSizes(root: nat, before: Tables, tables: Tables, maps: seq<MemoryMap>)
    requires Overlaid(root, before, tables, maps)
    ensures AllInLargestPages(root, tables, maps)
  {
    hide View, LargestFor, LevelFor, Covers, Overlay;
    forall i: nat, n: nat | && i < |maps| && n < PAGES && Covers(maps[i], n)
                            && (forall j :: i < j < |maps| ==> !Covers(maps[j], n))
      ensures View(root, tables, n).Some? && LargestFor(VirtLen(maps[i]), View(root, tables, n).value.level)
    {
      OverlayLast(maps, i, n, View(root, before, n));
      LevelForLargest(VirtLen(maps[i]));
    }
  }

  /** A page covered by none keeps its translation. */
  lemma {:induction false} OverlayNone(maps: seq<MemoryMap>, n: nat, before: Option<Leaf>)
    requires forall m <- maps :: !Covers(m, n)
    ensures Overlay(maps, n, before) == before
  {
    hide Covers;
    if maps != [] {
      OverlayNone(maps[..|maps| - 1], n, before);
    }
  }

  /** Mapping in two calls is mapping in one. */
  lemma {:induction false} OverlayConcat(maps: seq<MemoryMap>, more: seq<MemoryMap>, n: nat, before: Option<Leaf>)
    ensures Overlay(maps + more, n, before) == Overlay(more, n, Overlay(maps, n, before))
  {
    hide Covers;
    if more == [] {
      assert maps + more == maps;
    } else {
      var init := more[..|more| - 1];
      OverlayConcat(maps, init, n, before);
      assert (maps + more)[..|maps + more| - 1] == maps + init;
    }
  }

  lemma MultipleStep(a: nat, k: nat, d: nat)
    requires d > 0 && a % d == 0
    ensures (a + k * d) % d == 0
  {
    DivModUnique(a + k * d, d, a / d + k, 0);
  }

  lemma SlotStart(m: MemoryMap, k: nat)
    requires Mappable(m) && Accepted(m) && k < Steps(m)
    ensures VirtAt(m, k) < PAGES * PAGE_SIZE && VirtAt(m, k) / PAGE_SIZE == PageAt(m, k) < PAGES
    ensures PhysAt(m, k) < PHYS_LIMIT && PhysAt(m, k) % Size(Level(m)) == 0
    ensures PhysAt(m, k) / PAGE_SIZE == m.physStart / PAGE_SIZE + (PageAt(m, k) - FirstPage(m))
    ensures PageAt(m, k) % Span(Level(m)) == 0 && PageAt(m, k + 1) == PageAt(m, k) + Span(Level(m))
    ensures Covers(m, PageAt(m, k)) && !CoversFirst(m, k, PageAt(m, k))
  {
    var d, s := Size(Level(m)), Span(Level(m));
    MultipleStep(m.physStart, k, d);
    AlignedPage(m.virtStart, Level(m));
    AlignedPage(m.physStart, Level(m));
    MultipleStep(FirstPage(m), k, s);
    assert k * d == (k * s) * PAGE_SIZE;
    assert k * d + d <= Steps(m) * d by { MulLe(k + 1, Steps(m), d); }
    assert k * s + s <= Steps(m) * s by { MulLe(k + 1, Steps(m), s); }
  }

  lemma RangedStep(root: nat, tables: Tables, tables1: Tables, tables2: Tables, m: MemoryMap, k: nat)
    requires Mappable(m) && Accepted(m) && k < Steps(m)
    requires Ranged(root, tables, tables1, m, k)
    requires Installed(root, tables1, tables2, Level(m), PageAt(m, k), PhysAt(m, k) / PAGE_SIZE, m.flags)
    ensures Ranged(root, tables, tables2, m, k + 1)
  {
    hide View, Steps, Mappable, Accepted, Level, Span;
    SlotStart(m, k);
    forall n: nat | n < PAGES
      ensures View(root, tables2, n) == if CoversFirst(m, k + 1, n) then Some(Image(m, n)) else View(root, tables, n)
    {
      SlotRange(Level(m), PageAt(m, k), n);
    }
  }

  /** Slots are unblocked one by one: the first page of a slot answers for the whole slot. */
  lemma UnblockedStep(root: nat, tables: Tables, m: MemoryMap, k: nat)
    requires Mappable(m) && Accepted(m) && k < Steps(m)
    requires Unblocked(root, tables, m, k) && !Blocked(View(root, tables, PageAt(m, k)), Level(m))
    ensures Unblocked(root, tables, m, k + 1)
  {
    hide Steps, Mappable, Accepted, Level, Span, Walk;
    SlotStart(m, k);
    forall n: nat | n < PAGES && CoversFirst(m, k + 1, n) && !CoversFirst(m, k, n)
      ensures !Blocked(View(root, tables, n), Level(m))
    {
      SlotRange(Level(m), PageAt(m, k), n);
      if Blocked(View(root, tables, n), Level(m)) {
        LargerLeafCoversSlot(tables, root, 2, Level(m), n, PageAt(m, k));
      }
    }
  }

  /** A builder call after another is one call with the ranges of both, in order. */
  lemma CallsCompose(root: nat, tables: Tables, tables1: Tables, tables2: Tables, maps: seq<MemoryMap>,
                     more: seq<MemoryMap>)
    requires Overlaid(root, tables, tables1, maps) && Overlaid(root, tables1, tables2, more)
    ensures Overlaid(root, tables, tables2, maps + more)
  {
    hide View, Overlay;
    forall n: nat | n < PAGES
      ensures View(root, tables2, n) == Overlay(maps + more, n, View(root, tables, n))
    {
      OverlayConcat(maps, more, n, View(root, tables, n));
    }
  }

  ghost predicate Disjoint(maps: seq<MemoryMap>) {
    forall i, j, n: nat :: 0 <= i < j < |maps| && Covers(maps[i], n) ==> !Covers(maps[j], n)
  }

  lemma CoversAddress(m: MemoryMap, gpa: nat)
    requires Mappable(m) && Accepted(m)
    requires m.virtStart <= gpa < VirtAt(m, Steps(m))
    ensures Covers(m, gpa / PAGE_SIZE) && gpa / PAGE_SIZE < PAGES
    ensures Image(m, gpa / PAGE_SIZE).page * PAGE_SIZE + gpa % PAGE_SIZE == m.physStart + (gpa - m.virtStart)
  {
    AlignedPage(m.virtStart, Level(m));
    AlignedPage(m.physStart, Level(m));
    var d, s := Size(Level(m)), Span(Level(m));
    assert Steps(m) * d == (Steps(m) * s) * PAGE_SIZE;
  }

  /** The builder refines the plain map from guest ranges to host ranges: with pairwise disjoint ranges,
      every address of every range, rounded up to the page size in use, translates by that range. */
  lemma DisjointRangesTranslate(root: nat, tables: Tables, tables': Tables, maps: seq<MemoryMap>, i: nat, gpa: nat)
    requires Overlaid(root, tables, tables', maps) && Disjoint(maps) && i < |maps|
    requires Mappable(maps[i]) && Accepted(maps[i])
    requires maps[i].virtStart <= gpa < VirtAt(maps[i], Steps(maps[i]))
    ensures GTranslate(root, tables', gpa) == Some(maps[i].physStart + (gpa - maps[i].virtStart))
  {
    hide View, Steps, Covers, Mappable;
    CoversAddress(maps[i], gpa);
    var n := gpa / PAGE_SIZE;
    OverlayLast(maps, i, n, View(root, tables, n));
    DivModUnique(n, PAGES, 0, n);
  }

  /** ... and an address outside all of them translates as before. */
  lemma UncoveredTranslates(root: nat, tables: Tables, tables': Tables, maps: seq<MemoryMap>, gpa: nat)
    requires Overlaid(root, tables, tables', maps) && gpa < PAGES * PAGE_SIZE
    requires forall m <- maps :: !Covers(m, gpa / PAGE_SIZE)
    ensures GTranslate(root, tables', gpa) == GTranslate(root, tables, gpa)
  {
    hide View, Covers;
    var n := gpa / PAGE_SIZE;
    OverlayNone(maps, n, View(root, tables, n));
    DivModUnique(n, PAGES, 0, n);
  }

  // When a leaf is taken for a table.

  /** Every leaf of the tree maps a single 4 KiB page. */
  ghost predicate AllSmall(root: nat, tables: Tables) {
    forall n: nat :: n < PAGES && View(root, tables, n).Some? ==> View(root, tables, n).value.level == 0
  }

  /** Page `n` is covered by `maps[j]` and later by `maps[i]`, of a smaller page size. */
  ghost predicate SmallerLater(maps: seq<MemoryMap>, j: nat, i: nat, n: nat)
    requires j < i < |maps|
  {
    n < PAGES && Covers(maps[j], n) && Covers(maps[i], n) && Level(maps[j]) > Level(maps[i])
  }

  /** Some range reaches into an earlier one of a larger page size. */
  ghost predicate SmallInsideLarge(maps: seq<MemoryMap>) {
    exists j: nat, i: nat, n: nat :: j < i < |maps| && SmallerLater(maps, j, i, n)
  }

  /** The range that decides a page's translation, if any does. */
  lemma {:induction false} OverlayFrom(maps: seq<MemoryMap>, n: nat, before: Option<Leaf>) returns (j: nat)
    ensures j <= |maps| && forall k: nat :: j < k < |maps| ==> !Covers(maps[k], n)
    ensures j == |maps| ==> Overlay(maps, n, before) == before && forall m <- maps :: !Covers(m, n)
    ensures j < |maps| ==> Covers(maps[j], n) && Overlay(maps, n, before) == Some(Image(maps[j], n))
  {
    hide Covers;
    if maps == [] {
      j := 0;
    } else if Covers(maps[|maps| - 1], n) {
      j := |maps| - 1;
    } else {
      j := OverlayFrom(maps[..|maps| - 1], n, before);
      if j == |maps| - 1 {
        j := |maps|;
        assert forall m <- maps :: m in maps[..|maps| - 1] || m == maps[|maps| - 1];
      }
    }
  }

  /** Over a tree of 4 KiB leaves, a blocked range reaches into an earlier, larger one. */
  lemma BlockedHasPair(root: nat, tables: Tables, maps: seq<MemoryMap>, i: nat)
    requires AllSmall(root, tables) && i < |maps| && BlockedAt(root, tables, maps, i)
    ensures SmallInsideLarge(maps)
  {
    hide View, Covers;
    var n: nat :| n < PAGES && Covers(maps[i], n)
                  && Blocked(Overlay(maps[..i], n, View(root, tables, n)), Level(maps[i]));
    var j := OverlayFrom(maps[..i], n, View(root, tables, n));
    assert j < i && SmallerLater(maps, j, i, n);
  }

  /** And if any range does so, the builder is blocked at some range. */
  lemma {:induction false} PairIsBlocked(root: nat, tables: Tables, maps: seq<MemoryMap>, j: nat, i: nat, n: nat)
      returns (b: nat)
    requires j < i < |maps| && SmallerLater(maps, j, i, n)
    ensures b < |maps| && BlockedAt(root, tables, maps, b)
    decreases i
  {
    hide View, Covers;
    var p := OverlayFrom(maps[..i], n, View(root, tables, n));
    assert maps[..i][j] in maps[..i];
    if Level(maps[p]) > Level(maps[i]) {
      b := i;
    } else {
      assert p != j && j < p;
      b := PairIsBlocked(root, tables, maps, j, p, n);
    }
  }

  /** So over such a tree the builder takes a leaf for a table if and only if some range reaches into an
      earlier one of a larger page size: a condition on the ranges alone. */
  lemma BlockedExactly(root: nat, tables: Tables, maps: seq<MemoryMap>)
    requires AllSmall(root, tables)
    ensures (exists i: nat :: i < |maps| && BlockedAt(root, tables, maps, i)) <==> SmallInsideLarge(maps)
  {
    hide View, Covers;
    if i: nat :| i < |maps| && BlockedAt(root, tables, maps, i) {
      BlockedHasPair(root, tables, maps, i);
    }
    if SmallInsideLarge(maps) {
      var j: nat, i: nat, n: nat :| j < i < |maps| && SmallerLater(maps, j, i, n);
      var b := PairIsBlocked(root, tables, maps, j, i, n);
    }
  }

  /** Disjoint ranges over an unmapped tree are never blocked. */
  lemma DisjointNeverBlocked(root: nat, tables: Tables, maps: seq<MemoryMap>, i: nat)
    requires Disjoint(maps) && i < |maps| && forall n: nat :: n < PAGES ==> View(root, tables, n) == None
    ensures !BlockedAt(root, tables, maps, i)
  {
    hide View, Covers;
    if BlockedAt(root, tables, maps, i) {
      BlockedHasPair(root, tables, maps, i);
    }
  }

  /** The two ranges of the smallest such list: a 2 MiB page, and a 4 KiB page inside it. */
  function LargeThenSmall(flags: nat): seq<MemoryMap> {
    var large: MemoryMap := Request(0x8800_0000, 0x8820_0000, 0x8800_0000, 0x8820_0000, flags);
    var small: MemoryMap := Request(0x8800_0000, 0x8800_1000, 0xc000_0000, 0xc000_1000, flags);
    [large, small]
  }

  lemma LargeThenSmallBlocked(root: nat, tables: Tables, flags: nat)
    ensures BlockedAt(root, tables, LargeThenSmall(flags), 1)
    ensures flags < 256 && GuestLeaf(flags) ==> forall m <- LargeThenSmall(flags) :: Mappable(m)
  {
    hide View;
    var maps := LargeThenSmall(flags);
    var n := 0x8_8000;
    assert Level(maps[0]) == 1 && Steps(maps[0]) == 1 && Level(maps[1]) == 0 && Steps(maps[1]) == 1;
    assert Covers(maps[0], n) && Covers(maps[1], n);
    assert maps[..1] == [maps[0]];
    OverlayLast([maps[0]], 0, n, View(root, tables, n));
  }
}
