/** A shadow stack in the RAM of a booted guest: what the guest must see to in its own physical address
    space for its stack to be one. */
module BootedShadowStack {
  import opened Bits
  import opened PageTable
  import opened GStageTree
  import opened Csrs
  import opened MemoryMaps
  import opened TwoStage
  import opened ShadowStack
  import opened ShadowStackRuns
  import opened GuestMemory
  import opened Boot
  import opened BootTheorems
  import opened TrapSpec
  import opened TrapTheorems
  import opened TrapShadowStack

  /** Guest-physical addresses of the entries a VS-stage walk reads. */
  function Entries(g: GStage, words: Words, base: nat, level: nat, gva: nat): set<nat>
    requires level <= 4
    decreases level
  {
    var a := base + 8 * VpnOf(gva, level);
    match Host(g, a)
    case None => {}
    case Some(hpa) =>
      var e := words(hpa);
      {a} + (if R(e) || W(e) || X(e) || level == 0 then {} else Entries(g, words, Ppn(e) * PAGE_SIZE, level - 1, gva))
  }

  function PathOf(g: GStage, words: Words, vsatp: nat, gva: nat): set<nat> {
    if VsatpMode(vsatp) == SV39 then Entries(g, words, AtpPpn(vsatp) * PAGE_SIZE, 2, gva)
    else if VsatpMode(vsatp) == SV57 then Entries(g, words, AtpPpn(vsatp) * PAGE_SIZE, 4, gva)
    else {}
  }

  /** The host words that a walk reads are those of the entries it reads. */
  lemma {:induction false} TouchedFrom(g: GStage, words: Words, base: nat, level: nat, gva: nat, h: nat)
    requires level <= 4 && h in Touched(g, words, base, level, gva)
    ensures exists a <- Entries(g, words, base, level, gva) :: Host(g, a) == Some(h)
    decreases level
  {
    hide Host, VpnOf, R, W, X, Ppn;
    var a := base + 8 * VpnOf(gva, level);
    assert a in Entries(g, words, base, level, gva);
    if Host(g, a) != Some(h) {
      var e := words(Host(g, a).value);
      TouchedFrom(g, words, Ppn(e) * PAGE_SIZE, level - 1, gva, h);
      var b :| b in Entries(g, words, Ppn(e) * PAGE_SIZE, level - 1, gva) && Host(g, b) == Some(h);
      assert b in Entries(g, words, base, level, gva);
    }
  }

  lemma FootprintFrom(g: GStage, words: Words, vsatp: nat, gva: nat, h: nat)
    requires h in Footprint(g, words, vsatp, gva)
    ensures exists a <- PathOf(g, words, vsatp, gva) :: Host(g, a) == Some(h)
  {
    hide Host, Touched, Entries, VsatpMode, AtpPpn;
    if VsatpMode(vsatp) == SV39 {
      TouchedFrom(g, words, AtpPpn(vsatp) * PAGE_SIZE, 2, gva, h);
    } else if VsatpMode(vsatp) == SV57 {
      TouchedFrom(g, words, AtpPpn(vsatp) * PAGE_SIZE, 4, gva, h);
    }
  }

  /** Entries that translate slot `i`. */
  function PathAt(area: Area, i: nat): set<nat> {
    if AddressOf(area, i) < 0 then {} else PathOf(area.g, area.words, area.vsatp, AddressOf(area, i))
  }

  /** Where the guest's own address space puts slot `i`. */
  function GpaOf(area: Area, i: nat): Option<nat> {
    if AddressOf(area, i) < 0 then None
    else match VsTranslate(area.g, area.words, area.vsatp, AddressOf(area, i))
    case Ok(gpa) => Some(gpa)
    case _ => None
  }

  ghost predicate AllInRam(area: Area, maps: seq<MemoryMap>, addresses: set<nat>) {
    forall a <- addresses :: InRam(area.g.root, area.g.tables, maps, a)
  }

  /** What the guest sees to, in guest-physical addresses: slots and the entries that translate them lie in
      RAM, no two slots share an address, and no slot is one of those entries. */
  ghost predicate GuestArea(area: Area, maps: seq<MemoryMap>) {
    && 8 * area.depth <= area.base < WORD && area.base % 8 == 0
    && (forall i: nat :: i < area.depth ==> GpaOf(area, i).Some? && AllInRam(area, maps, {GpaOf(area, i).value}))
    && (forall i: nat, j: nat :: i < area.depth && j < area.depth && GpaOf(area, i) == GpaOf(area, j) ==> i == j)
    && (forall i: nat :: i < area.depth ==> AllInRam(area, maps, PathAt(area, i)))
    && (forall i: nat, j: nat :: i < area.depth && j < area.depth ==> GpaOf(area, i).value !in PathAt(area, j))
  }

  lemma CellIs(area: Area, maps: seq<MemoryMap>, i: nat)
    requires GuestArea(area, maps) && i < area.depth
    ensures AddressOf(area, i) >= 0 && GpaOf(area, i).Some?
    ensures InRam(area.g.root, area.g.tables, maps, GpaOf(area, i).value)
    ensures Cell(area, i).Ptr? && Host(area.g, GpaOf(area, i).value) == Some(Cell(area, i).hpa)
  {
    hide VsTranslate, GTranslate, DeviceCovered, PathAt;
    assert AllInRam(area, maps, {GpaOf(area, i).value});
  }

  /** In a booted guest, such an area is a stack area: no two slots share a host cell, and no cell holds an
      entry that translates a slot. */
  lemma BootedArea(ram: Tables, frames: Frames, rom: Rom, runs: seq<Run>, maps: seq<MemoryMap>, area: Area)
    requires Ready(area.g.root, ram, area.g.tables, frames, rom, runs, maps) && GuestArea(area, maps)
    ensures AreaOk(area)
  {
    hide Ready, GuestArea, Footprint, Cell;
    AreaBounds(area, maps);
    forall i: nat | i < area.depth
      ensures Cell(area, i).Ptr?
    {
      CellIs(area, maps, i);
    }
    forall i: nat, j: nat | i < area.depth && j < area.depth && Cell(area, i) == Cell(area, j)
      ensures i == j
    {
      CellsApart(ram, frames, rom, runs, maps, area, i, j);
    }
    forall i: nat, j: nat | i < area.depth && j < area.depth
      ensures Cell(area, i).hpa !in Footprint(area.g, area.words, area.vsatp, AddressOf(area, j))
    {
      CellNotEntry(ram, frames, rom, runs, maps, area, i, j);
    }
  }

  lemma AreaBounds(area: Area, maps: seq<MemoryMap>)
    requires GuestArea(area, maps)
    ensures 8 * area.depth <= area.base < WORD && area.base % 8 == 0
  {
  }

  lemma CellsApart(ram: Tables, frames: Frames, rom: Rom, runs: seq<Run>, maps: seq<MemoryMap>, area: Area,
                   i: nat, j: nat)
    requires Ready(area.g.root, ram, area.g.tables, frames, rom, runs, maps) && GuestArea(area, maps)
    requires i < area.depth && j < area.depth && Cell(area, i) == Cell(area, j)
    ensures i == j
  {
    hide Ready, GpaOf, GTranslate, InRam, PathAt, Cell, AllInRam;
    CellIs(area, maps, i);
    CellIs(area, maps, j);
    RamInjective(area.g.root, ram, area.g.tables, frames, rom, runs, maps, GpaOf(area, i).value, GpaOf(area, j).value);
  }

  lemma CellNotEntry(ram: Tables, frames: Frames, rom: Rom, runs: seq<Run>, maps: seq<MemoryMap>, area: Area,
                     i: nat, j: nat)
    requires Ready(area.g.root, ram, area.g.tables, frames, rom, runs, maps) && GuestArea(area, maps)
    requires i < area.depth && j < area.depth
    ensures Cell(area, i).Ptr?
    ensures Cell(area, i).hpa !in Footprint(area.g, area.words, area.vsatp, AddressOf(area, j))
  {
    hide Ready, GpaOf, GTranslate, InRam, PathOf, Cell, Footprint;
    CellIs(area, maps, i);
    var h := Cell(area, i).hpa;
    if h in Footprint(area.g, area.words, area.vsatp, AddressOf(area, j)) {
      FootprintFrom(area.g, area.words, area.vsatp, AddressOf(area, j), h);
      var a :| a in PathOf(area.g, area.words, area.vsatp, AddressOf(area, j)) && Host(area.g, a) == Some(h);
      assert a in PathAt(area, j);
      RamInjective(area.g.root, ram, area.g.tables, frames, rom, runs, maps, GpaOf(area, i).value, a);
    }
  }

  lemma SlotOffset(area: Area, i: nat)
    requires area.base % 8 == 0 && GpaOf(area, i).Some?
    ensures GpaOf(area, i).value % PAGE_SIZE + 8 <= PAGE_SIZE
  {
    hide PteWalk, VsatpMode, AtpPpn;
    var gva := AddressOf(area, i);
    if VsatpMode(area.vsatp) == SV39 {
      WalkOffset(Sv39, area.g, area.words, AtpPpn(area.vsatp) * PAGE_SIZE, 2, gva);
    } else {
      WalkOffset(Sv57, area.g, area.words, AtpPpn(area.vsatp) * PAGE_SIZE, 4, gva);
    }
    assert gva % 8 == 0;
  }

  /** No push into such an area writes a page table of the hypervisor: all eight bytes of every cell lie in
      one guest frame, and in no table. */
  lemma CellsInFrames(ram: Tables, frames: Frames, rom: Rom, runs: seq<Run>, maps: seq<MemoryMap>, area: Area,
                      i: nat, k: nat)
    requires Ready(area.g.root, ram, area.g.tables, frames, rom, runs, maps) && GuestArea(area, maps)
    requires i < area.depth && k < 8
    ensures AddressOf(area, i) >= 0 && Cell(area, i).Ptr?
    ensures var h := Cell(area, i).hpa;
            && h - h % PAGE_SIZE in frames && h - h % PAGE_SIZE <= h + k < h - h % PAGE_SIZE + PAGE_SIZE
            && !InTable(area.g.tables, h + k)
  {
    hide Ready, GuestArea, GTranslate, InRam, Cell, GpaOf, Serves;
    AreaBounds(area, maps);
    CellIs(area, maps, i);
    SlotOffset(area, i);
    RamInFrames(area.g.root, ram, area.g.tables, frames, rom, runs, maps, GpaOf(area, i).value);
  }

  /** From boot to run: a booted guest that sets `ssp` to the top of such an area, and then calls and returns
      in nested fashion, storing elsewhere and trapping for other reasons as it likes, never sees a
      shadow-stack exception, and finds `ssp` where it put it. */
  lemma BootedNestedCalls(env: Env, w: World, stale: Frame, visits: seq<Visit>, calls: Calls, area: Area,
                          ram: Tables, frames: Frames, rom: Rom, runs: seq<Run>, maps: seq<MemoryMap>)
    requires Ready(env.g.root, ram, env.g.tables, frames, rom, runs, maps)
    requires area.g == env.g && area.words == w.stack.words && area.base == w.stack.ssp && GuestArea(area, maps)
    requires WorldOk(env, w) && FrameOk(stale) && Plays(env.plicBase, area.vsatp, visits, w)
    requires Script(visits) == ActsOf(calls) && Nested(area, 0, calls)
    ensures TrapRun(env, w, stale, visits).2.Resumed? && Undisturbed(env, w, stale, visits)
    ensures TrapRun(env, w, stale, visits).0.stack.ssp == w.stack.ssp
  {
    hide Ready, GuestArea, Plays, Nested, ActsOf, Script, AreaOk, TrapRun, Undisturbed, Footprint, Cell;
    AreaBounds(area, maps);
    BootedArea(ram, frames, rom, runs, maps, area);
    NestedCallsThroughTraps(env, w, stale, visits, calls, area, []);
  }
}
