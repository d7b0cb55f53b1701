/** The page-table builder over any number of calls, from a zeroed root to a translation. */
module Builder {
  import opened Bits
  import opened PageTable
  import opened GStageTree
  import opened MemoryMaps
  import opened Csrs
  import opened Sv39x4

  /** All ranges of all calls, in order. */
  function Flatten(calls: seq<seq<MemoryMap>>): seq<MemoryMap> {
    if calls == [] then [] else Flatten(calls[..|calls| - 1]) + calls[|calls| - 1]
  }

  /** A range blocked in a later call is blocked in the list of all ranges. */
  lemma BlockedLater(root: nat, zero: Tables, tables: Tables, maps: seq<MemoryMap>, more: seq<MemoryMap>, i: nat)
    requires Overlaid(root, zero, tables, maps) && i < |more| && BlockedAt(root, tables, more, i)
    ensures BlockedAt(root, zero, maps + more, |maps| + i)
  {
    hide View, Covers;
    var n: nat :| n < PAGES && Covers(more[i], n)
                  && Blocked(Overlay(more[..i], n, View(root, tables, n)), Level(more[i]));
    OverlayConcat(maps, more[..i], n, View(root, zero, n));
    assert (maps + more)[..|maps| + i] == maps + more[..i];
  }

  lemma DisjointPrefix(maps: seq<MemoryMap>, more: seq<MemoryMap>)
    requires Disjoint(maps + more)
    ensures Disjoint(maps)
  {
    hide Covers;
    var all := maps + more;
    assert forall i :: 0 <= i < |maps| ==> all[i] == maps[i];
  }

  lemma {:induction false} DisjointCalls(calls: seq<seq<MemoryMap>>, k: nat)
    requires k <= |calls| && Disjoint(Flatten(calls))
    ensures Disjoint(Flatten(calls[..k]))
  {
    hide Disjoint;
    if k < |calls| {
      DisjointPrefix(Flatten(calls[..|calls| - 1]), calls[|calls| - 1]);
      DisjointCalls(calls[..|calls| - 1], k);
      assert calls[..|calls| - 1][..k] == calls[..k];
    } else {
      assert calls[..k] == calls;
    }
  }

  /** The plain map from guest ranges to host ranges. */
  predicate Asks(m: MemoryMap, gpa: nat) {
    m.virtStart <= gpa < VirtAt(m, Steps(m))
  }

  /** From a zeroed root, after any list of builder calls whose rounded-up ranges are pairwise disjoint, no
      call writes through a leaf, and `trans_addr` returns host start plus offset for every address of
      every range, and no address for a page outside them all. */
  method BuildAndTranslate(mem: HostMemory, calls: seq<seq<MemoryMap>>, hgatp: nat, gpa: nat)
      returns (r: Outcome, t: Translation)
    requires mem.HeapOk() && AtpPpn(hgatp) * PAGE_SIZE == mem.root && HgatpMode(hgatp) == SV39X4
    requires gpa < PAGES * PAGE_SIZE && forall c <- calls :: forall m <- c :: Mappable(m)
    modifies mem
    ensures mem.Valid() && mem.frames == old(mem.frames)
    ensures Disjoint(Flatten(calls)) ==> !r.LeafAsTable?
    ensures r.Done? && Disjoint(Flatten(calls)) ==>
              && (forall m <- Flatten(calls) :: Asks(m, gpa) ==> t == Address(m.physStart + (gpa - m.virtStart)))
              && ((forall m <- Flatten(calls) :: !Covers(m, gpa / PAGE_SIZE)) ==> !t.Address?)
  {
    hide HeapInv, TreeInv, View, Overlaid, BlockedAt, Mappable, Accepted, Verdict, Disjoint, Covers, Asks, AtpPpn,
         HgatpMode, GTranslate;
    t := Unreachable;
    mem.InitializePageTable();
    ghost var zero := mem.tables;
    OverlaidEmpty(mem.root, zero);
    var k := 0;
    while k < |calls|
      invariant 0 <= k <= |calls| && mem.Valid() && mem.frames == old(mem.frames)
      invariant Overlaid(mem.root, zero, mem.tables, Flatten(calls[..k]))
      invariant forall m <- Flatten(calls[..k]) :: Mappable(m) && Accepted(m)
    {
      ghost var before, maps := mem.tables, Flatten(calls[..k]);
      assert calls[..k + 1][..k] == calls[..k] && calls[k] in calls;
      r := mem.GeneratePageTable(calls[k]);
      if !r.Done? {
        if r.LeafAsTable? && Disjoint(Flatten(calls)) {
          var i :| 0 <= i < |calls[k]| && BlockedAt(mem.root, before, calls[k], i);
          BlockedLater(mem.root, zero, before, maps, calls[k], i);
          DisjointCalls(calls, k + 1);
          DisjointNeverBlocked(mem.root, zero, maps + calls[k], |maps| + i);
        }
        return;
      }
      CallsCompose(mem.root, zero, before, mem.tables, maps, calls[k]);
      k := k + 1;
    }
    assert calls[..k] == calls;
    r := Done;
    t := mem.TransAddr(hgatp, gpa);
    if Disjoint(Flatten(calls)) {
      AllTranslate(mem.root, zero, mem.tables, Flatten(calls), gpa);
    }
  }

  lemma AllTranslate(root: nat, zero: Tables, tables: Tables, maps: seq<MemoryMap>, gpa: nat)
    requires Overlaid(root, zero, tables, maps) && Disjoint(maps) && gpa < PAGES * PAGE_SIZE
    requires forall n: nat :: n < PAGES ==> View(root, zero, n) == None
    requires forall m <- maps :: Mappable(m) && Accepted(m)
    ensures forall m <- maps :: Asks(m, gpa) ==>
              GTranslate(root, tables, gpa) == Some(m.physStart + (gpa - m.virtStart))
    ensures (forall m <- maps :: !Covers(m, gpa / PAGE_SIZE)) ==> GTranslate(root, tables, gpa) == None
  {
    hide View, Overlaid, Disjoint, Mappable, Accepted, Covers, Steps;
    forall m <- maps | Asks(m, gpa)
      ensures GTranslate(root, tables, gpa) == Some(m.physStart + (gpa - m.virtStart))
    {
      var i :| 0 <= i < |maps| && maps[i] == m;
      DisjointRangesTranslate(root, zero, tables, maps, i, gpa);
    }
    if forall m <- maps :: !Covers(m, gpa / PAGE_SIZE) {
      UncoveredTranslates(root, zero, tables, maps, gpa);
      DivModUnique(gpa / PAGE_SIZE, PAGES, 0, gpa / PAGE_SIZE);
    }
  }
}
