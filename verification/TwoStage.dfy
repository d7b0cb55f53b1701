/** VS-stage translation of guest-virtual addresses through the G-stage
    (sv39.rs, sv57.rs and the dispatch in src/memmap/page_table.rs). */
module TwoStage {
  import opened Bits
  import opened PageTable
  import opened GStageTree
  import opened Reassembly
  import opened Csrs
  import opened Sv39x4

  datatype Scheme = Sv39 | Sv57

  function Top(scheme: Scheme): nat {
    if scheme.Sv39? then 2 else 4
  }

  /** Host memory read as 64-bit words. */
  type Words = nat -> nat

  /** How a VS-stage walk ends: a guest-physical address, the `Err` of Sv57, a failed alignment
      `assert!`, the `unreachable!()` of Sv39, a table page the G-stage does not map (where the source goes
      on with what a wild read gives it), or a mode without a walker. */
  datatype Walked = Ok(gpa: nat) | Err | AlignmentPanic | NoLeafPanic | GStageFault | ModePanic

  /** A G-stage, fixed during a walk. */
  datatype GStage = GStage(root: nat, tables: Tables)

  function Host(g: GStage, gpa: nat): Option<nat> {
    GTranslate(g.root, g.tables, gpa)
  }

  /** Index of the entry for `gva` in a level-`level` table, read off the architecture's layout. */
  function VpnOf(gva: nat, level: nat): (r: nat)
    requires level <= 4
    ensures r < 512
  {
    (gva / Size(level)) % 512
  }

  function NoLeaf(scheme: Scheme): Walked {
    if scheme.Sv39? then NoLeafPanic else Err
  }

  /** The reference walk, G-translating the address of every entry it reads. */
  function PteWalk(scheme: Scheme, g: GStage, words: Words, base: nat, level: nat, gva: nat): Walked
    requires level <= 4
    decreases level
  {
    match Host(g, base + 8 * VpnOf(gva, level))
    case None => GStageFault
    case Some(hpa) =>
      var e := words(hpa);
      if R(e) || W(e) || X(e) then
        (match LeafTarget(level, e, gva) case Some(gpa) => Ok(gpa) case None => AlignmentPanic)
      else if level == 0 then NoLeaf(scheme)
      else PteWalk(scheme, g, words, Ppn(e) * PAGE_SIZE, level - 1, gva)
  }

  /** `vs_stage_trans_addr` as a function: the walk of the mode in vsatp. */
  function VsTranslate(g: GStage, words: Words, vsatp: nat, gva: nat): Walked {
    if VsatpMode(vsatp) == SV39 then PteWalk(Sv39, g, words, AtpPpn(vsatp) * PAGE_SIZE, 2, gva)
    else if VsatpMode(vsatp) == SV57 then PteWalk(Sv57, g, words, AtpPpn(vsatp) * PAGE_SIZE, 4, gva)
    else ModePanic
  }

  /** Which walk is made, by the mode number in vsatp, and from where. */
  lemma VsDispatch(g: GStage, words: Words, vsatp: nat, gva: nat)
    ensures var mode, base := vsatp / 0x1000_0000_0000_0000, (vsatp % 0x1000_0000_0000) * 4096;
            VsTranslate(g, words, vsatp, gva)
            == if mode == 8 then PteWalk(Sv39, g, words, base, 2, gva)
               else if mode == 10 then PteWalk(Sv57, g, words, base, 4, gva)
               else ModePanic
  {
    hide PteWalk, VsatpMode, AtpPpn;
    VsatpFields(vsatp);
  }

  /** Every entry on the way down is mapped by the G-stage, and none is a leaf. */
  predicate NoLeafOnPath(g: GStage, words: Words, base: nat, level: nat, gva: nat)
    requires level <= 4
    decreases level
  {
    match Host(g, base + 8 * VpnOf(gva, level))
    case None => false
    case Some(hpa) =>
      var e := words(hpa);
      && !R(e) && !W(e) && !X(e)
      && (level == 0 || NoLeafOnPath(g, words, Ppn(e) * PAGE_SIZE, level - 1, gva))
  }

  lemma {:induction false} NoLeafWalk(scheme: Scheme, g: GStage, words: Words, base: nat, level: nat, gva: nat)
    requires level <= 4
    ensures PteWalk(scheme, g, words, base, level, gva).Err?
       <==> scheme.Sv57? && NoLeafOnPath(g, words, base, level, gva)
    ensures PteWalk(scheme, g, words, base, level, gva).NoLeafPanic?
       <==> scheme.Sv39? && NoLeafOnPath(g, words, base, level, gva)
    decreases level
  {
    hide R, W, X, Ppn, VpnOf, LeafTarget, View;
    match Host(g, base + 8 * VpnOf(gva, level))
    case None =>
    case Some(hpa) =>
      if level > 0 { NoLeafWalk(scheme, g, words, Ppn(words(hpa)) * PAGE_SIZE, level - 1, gva); }
  }

  /** A translation fails with `Err` if and only if the mode is Sv57 and no entry on the path is a leaf; under
      Sv39 the same path panics, and no translation is ever an `Err`. */
  lemma ErrExactly(g: GStage, words: Words, vsatp: nat, gva: nat)
    ensures var mode, base := vsatp / 0x1000_0000_0000_0000, (vsatp % 0x1000_0000_0000) * 4096;
            && (VsTranslate(g, words, vsatp, gva).Err? <==> mode == 10 && NoLeafOnPath(g, words, base, 4, gva))
            && (VsTranslate(g, words, vsatp, gva).NoLeafPanic? <==> mode == 8 && NoLeafOnPath(g, words, base, 2, gva))
  {
    hide PteWalk, VsTranslate, NoLeafOnPath;
    VsDispatch(g, words, vsatp, gva);
    var base := (vsatp % 0x1000_0000_0000) * 4096;
    NoLeafWalk(Sv39, g, words, base, 2, gva);
    NoLeafWalk(Sv57, g, words, base, 4, gva);
  }

  /** Address of the next table, and of the entry in it for the nine address bits from `unit` up. */
  function EntryBelow(e: nat, gva: nat, unit: nat): nat
    requires unit > 0
  {
    DivNonNegative(gva, unit);
    ((e / 1024) % 0x1000_0000_0000) * 4096 + 8 * ((gva / unit) % 512)
  }

  /** For instance: five tables in place and nothing mapped in the last, as before a page is demanded. */
  lemma FiveTablesNoLeaf(g: GStage, words: Words, vsatp: nat, gva: nat, h4: nat, h3: nat, h2: nat, h1: nat, h0: nat)
    requires vsatp / 0x1000_0000_0000_0000 == 10
    requires Host(g, (vsatp % 0x1000_0000_0000) * 4096 + 8 * ((gva / 0x1_0000_0000_0000) % 512)) == Some(h4)
    requires Host(g, EntryBelow(words(h4), gva, 0x80_0000_0000)) == Some(h3)
    requires Host(g, EntryBelow(words(h3), gva, 0x4000_0000)) == Some(h2)
    requires Host(g, EntryBelow(words(h2), gva, 0x20_0000)) == Some(h1)
    requires Host(g, EntryBelow(words(h1), gva, 0x1000)) == Some(h0)
    requires forall h <- [h4, h3, h2, h1, h0] :: (words(h) / 2) % 8 == 0
    ensures VsTranslate(g, words, vsatp, gva) == Err
  {
    hide VsTranslate, Host, NoLeafOnPath, VpnOf, Ppn, EntryBelow;
    assert forall h <- [h4, h3, h2, h1, h0] :: (words(h) / 2) % 8 == 0;
    assert h4 in [h4, h3, h2, h1, h0] && h3 in [h4, h3, h2, h1, h0] && h2 in [h4, h3, h2, h1, h0];
    assert h1 in [h4, h3, h2, h1, h0] && h0 in [h4, h3, h2, h1, h0];
    PathStep(g, words, words(h1), 0, gva, 0x1000, h0);
    PathStep(g, words, words(h2), 1, gva, 0x20_0000, h1);
    PathStep(g, words, words(h3), 2, gva, 0x4000_0000, h2);
    PathStep(g, words, words(h4), 3, gva, 0x80_0000_0000, h3);
    PathTop(g, words, (vsatp % 0x1000_0000_0000) * 4096, gva, h4);
    ErrExactly(g, words, vsatp, gva);
  }

  lemma PathStep(g: GStage, words: Words, e: nat, level: nat, gva: nat, unit: nat, h: nat)
    requires level <= 3 && unit == Size(level) && Host(g, EntryBelow(e, gva, unit)) == Some(h)
    requires (words(h) / 2) % 8 == 0
    requires level == 0 || NoLeafOnPath(g, words, Ppn(words(h)) * PAGE_SIZE, level - 1, gva)
    ensures NoLeafOnPath(g, words, Ppn(e) * PAGE_SIZE, level, gva)
  {
    hide Host, R, W, X;
    NoBits(words(h));
    assert EntryBelow(e, gva, unit) == Ppn(e) * PAGE_SIZE + 8 * VpnOf(gva, level);
  }

  lemma PathTop(g: GStage, words: Words, base: nat, gva: nat, h: nat)
    requires Host(g, base + 8 * ((gva / 0x1_0000_0000_0000) % 512)) == Some(h) && (words(h) / 2) % 8 == 0
    requires NoLeafOnPath(g, words, Ppn(words(h)) * PAGE_SIZE, 3, gva)
    ensures NoLeafOnPath(g, words, base, 4, gva)
  {
    hide Host, Ppn, R, W, X;
    NoBits(words(h));
    assert VpnOf(gva, 4) == (gva / 0x1_0000_0000_0000) % 512;
  }

  lemma NoBits(e: nat)
    requires (e / 2) % 8 == 0
    ensures !R(e) && !W(e) && !X(e)
  {
  }

  /** The G-stage translates a page as a whole. */
  lemma SamePage(g: GStage, base: nat, offset: nat)
    requires base % PAGE_SIZE == 0 && offset < PAGE_SIZE
    ensures Host(g, base + offset) == match Host(g, base) case Some(h) => Some(h + offset) case None => None
  {
    hide View;
    DivModUnique(base + offset, PAGE_SIZE, base / PAGE_SIZE, offset);
  }

  lemma VpnFieldOf(gva: nat, level: nat)
    requires level <= 4
    ensures VpnField(gva, level) == VpnOf(gva, level)
  {
    hide And;
    VpnFieldMeaning(gva);
  }

  /** One step of the source's walk, which G-translates only the table's base address. */
  lemma BaseStep(scheme: Scheme, g: GStage, words: Words, base: nat, level: nat, gva: nat)
    requires level <= Top(scheme) && base % PAGE_SIZE == 0
    ensures var r := PteWalk(scheme, g, words, base, level, gva);
            match Host(g, base)
            case None => r == GStageFault
            case Some(h) =>
              var e := words(h + 8 * VpnField(gva, level));
              if IsLeaf(e) then
                r == match LeafTarget(level, e, gva) case Some(gpa) => Ok(gpa) case None => AlignmentPanic
              else if level == 0 then r == NoLeaf(scheme)
              else r == PteWalk(scheme, g, words, EntirePpn(e) * PAGE_SIZE, level - 1, gva)
  {
    hide View, VpnField, VpnOf, IsLeaf, EntirePpn, LeafTarget, AlreadyCreated, Ppn, V, R, W, X, GTranslate;
    VpnFieldOf(gva, level);
    SamePage(g, base, 8 * VpnOf(gva, level));
    if Host(g, base).Some? {
      DecodeMeaning(words(Host(g, base).value + 8 * VpnField(gva, level)));
    }
  }

  /** Sv39 `trans_addr`. */
  method Sv39TransAddr(mem: HostMemory, words: Words, hgatp: nat, vsatp: nat, gva: nat) returns (r: Walked)
    requires mem.Valid() && AtpPpn(hgatp) * PAGE_SIZE == mem.root && HgatpMode(hgatp) == SV39X4
    requires VsatpMode(vsatp) == SV39
    ensures r == VsTranslate(GStage(mem.root, mem.tables), words, vsatp, gva)
  {
    hide GTranslate, VpnField, IsLeaf, EntirePpn, Leaf3, LeafTarget, AtpPpn, HgatpMode, VsatpMode, PteWalk, HeapInv,
         TreeInv;
    ghost var g := GStage(mem.root, mem.tables);
    var base: nat := AtpPpn(vsatp) * PAGE_SIZE;
    var level := 2;
    while true
      invariant 0 <= level <= 2 && base % PAGE_SIZE == 0
      invariant VsTranslate(g, words, vsatp, gva) == PteWalk(Sv39, g, words, base, level, gva)
      decreases level
    {
      var t := mem.TransAddr(hgatp, base);
      BaseStep(Sv39, g, words, base, level, gva);
      if !t.Address? { return GStageFault; }
      var e := words(t.address + 8 * VpnField(gva, level));
      if IsLeaf(e) {
        Leaf3Meaning(level, e, gva);
        match Leaf3(level, e, gva)
        case Some(gpa) => return Ok(gpa);
        case None => return AlignmentPanic;
      }
      if level == 0 { return NoLeafPanic; }
      base := EntirePpn(e) * PAGE_SIZE;
      level := level - 1;
    }
  }

  /** Sv57 `trans_addr`. */
  method Sv57TransAddr(mem: HostMemory, words: Words, hgatp: nat, vsatp: nat, gva: nat) returns (r: Walked)
    requires mem.Valid() && AtpPpn(hgatp) * PAGE_SIZE == mem.root && HgatpMode(hgatp) == SV39X4
    requires VsatpMode(vsatp) == SV57
    ensures r == VsTranslate(GStage(mem.root, mem.tables), words, vsatp, gva)
  {
    hide GTranslate, VpnField, IsLeaf, EntirePpn, Leaf5, LeafTarget, AtpPpn, HgatpMode, VsatpMode, PteWalk, HeapInv,
         TreeInv;
    ghost var g := GStage(mem.root, mem.tables);
    var base: nat := AtpPpn(vsatp) * PAGE_SIZE;
    var level := 4;
    while true
      invariant 0 <= level <= 4 && base % PAGE_SIZE == 0
      invariant VsTranslate(g, words, vsatp, gva) == PteWalk(Sv57, g, words, base, level, gva)
      decreases level
    {
      var t := mem.TransAddr(hgatp, base);
      BaseStep(Sv57, g, words, base, level, gva);
      if !t.Address? { return GStageFault; }
      var e := words(t.address + 8 * VpnField(gva, level));
      if IsLeaf(e) {
        Leaf5Meaning(level, e, gva);
        match Leaf5(level, e, gva)
        case Some(gpa) => return Ok(gpa);
        case None => return AlignmentPanic;
      }
      if level == 0 { return Err; }
      base := EntirePpn(e) * PAGE_SIZE;
      level := level - 1;
    }
  }

  /** `vs_stage_trans_addr`. */
  method VsStageTransAddr(mem: HostMemory, words: Words, hgatp: nat, vsatp: nat, gva: nat) returns (r: Walked)
    requires mem.Valid() && AtpPpn(hgatp) * PAGE_SIZE == mem.root && HgatpMode(hgatp) == SV39X4
    ensures r == VsTranslate(GStage(mem.root, mem.tables), words, vsatp, gva)
  {
    if VsatpMode(vsatp) == SV39 {
      r := Sv39TransAddr(mem, words, hgatp, vsatp, gva);
    } else if VsatpMode(vsatp) == SV57 {
      r := Sv57TransAddr(mem, words, hgatp, vsatp, gva);
    } else {
      r := ModePanic;
    }
  }

  // Against the architecture's own walk.

  /** Entries have 54 bits below the reserved and extension fields. */
  const ENTRY_LIMIT: nat := 0x40_0000_0000_0000

  /** An entry the architecture accepts: valid, no reserved encoding, the bits from 54 up clear, and on a
      pointer also U, A and D. Write-only entries are shadow-stack pages (Zicfiss), not reserved. */
  predicate LegalEntry(e: nat)
    ensures LegalEntry(e) ==> V(e)
  {
    && V(e) && !(!R(e) && W(e) && X(e)) && e < ENTRY_LIMIT
    && (LeafEntry(e) || (!Bit(e, 4) && !Bit(e, 6) && !Bit(e, 7)))
  }

  /** Section 4.3.2 of the privileged specification, with every entry address passed through the
      G-stage: faults on an unmapped or out-of-range entry address, an illegal entry, and a misaligned
      superpage. The checks that depend on the kind of access are not part of it. */
  function ArchWalk(g: GStage, words: Words, base: nat, level: nat, gva: nat): Option<nat>
    requires level <= 4
    decreases level
  {
    if base + 8 * VpnOf(gva, level) >= PAGES * PAGE_SIZE then None
    else match Host(g, base + 8 * VpnOf(gva, level))
    case None => None
    case Some(hpa) =>
      var e := words(hpa);
      if !LegalEntry(e) then None
      else if LeafEntry(e) then LeafTarget(level, e, gva)
      else if level == 0 then None
      else ArchWalk(g, words, Ppn(e) * PAGE_SIZE, level - 1, gva)
  }

  /** Every entry the walk reads is legal, and at an address the G-stage can take. */
  predicate LegalPath(g: GStage, words: Words, base: nat, level: nat, gva: nat)
    requires level <= 4
    decreases level
  {
    && base + 8 * VpnOf(gva, level) < PAGES * PAGE_SIZE
    && match Host(g, base + 8 * VpnOf(gva, level))
       case None => true
       case Some(hpa) =>
         var e := words(hpa);
         && LegalEntry(e)
         && (LeafEntry(e) || level == 0 || LegalPath(g, words, Ppn(e) * PAGE_SIZE, level - 1, gva))
  }

  /** The software walk and the architecture agree exactly on legal paths: the hardware succeeds if and
      only if the path is legal and the software walk succeeds, and then with the same address. */
  lemma {:induction false} ArchAgreement(scheme: Scheme, g: GStage, words: Words, base: nat, level: nat, gva: nat)
    requires level <= 4
    ensures ArchWalk(g, words, base, level, gva)
         == if LegalPath(g, words, base, level, gva) && PteWalk(scheme, g, words, base, level, gva).Ok?
            then Some(PteWalk(scheme, g, words, base, level, gva).gpa) else None
    decreases level
  {
    hide LegalEntry, V, R, W, X, Ppn, VpnOf, LeafTarget, View;
    match Host(g, base + 8 * VpnOf(gva, level))
    case None =>
    case Some(hpa) =>
      if level > 0 { ArchAgreement(scheme, g, words, Ppn(words(hpa)) * PAGE_SIZE, level - 1, gva); }
  }

  /** The architecture's translation of `gva`, from vsatp. */
  function ArchTranslate(g: GStage, words: Words, vsatp: nat, gva: nat): Option<nat> {
    if VsatpMode(vsatp) == SV39 then ArchWalk(g, words, AtpPpn(vsatp) * PAGE_SIZE, 2, gva)
    else if VsatpMode(vsatp) == SV57 then ArchWalk(g, words, AtpPpn(vsatp) * PAGE_SIZE, 4, gva)
    else None
  }

  /** Where the walk of `gva` from vsatp reads its first entry. */
  function RootEntry(vsatp: nat, gva: nat): nat {
    AtpPpn(vsatp) * PAGE_SIZE + 8 * VpnOf(gva, if VsatpMode(vsatp) == SV39 then 2 else 4)
  }

  /** Off legal paths they differ: whatever else is in memory, and for every address under it, the software
      walk follows a root entry whose valid bit is clear as a leaf, and the hardware does not. */
  lemma InvalidLeafFollowed(g: GStage, words: Words, vsatp: nat, gva: nat, h: nat)
    requires VsatpMode(vsatp) == SV39 || VsatpMode(vsatp) == SV57
    requires Host(g, RootEntry(vsatp, gva)) == Some(h)
    requires !V(words(h)) && (R(words(h)) || W(words(h)) || X(words(h)))
    ensures var level := if VsatpMode(vsatp) == SV39 then 2 else 4;
            VsTranslate(g, words, vsatp, gva) == match LeafTarget(level, words(h), gva)
                                                 case Some(gpa) => Ok(gpa)
                                                 case None => AlignmentPanic
    ensures ArchTranslate(g, words, vsatp, gva) == None
  {
    hide VpnOf, View, LeafTarget, VsatpMode, AtpPpn, LegalEntry;
  }

  /** A translation keeps the offset within the page. */
  lemma {:induction false} WalkOffset(scheme: Scheme, g: GStage, words: Words, base: nat, level: nat, gva: nat)
    requires level <= 4 && PteWalk(scheme, g, words, base, level, gva).Ok?
    ensures PteWalk(scheme, g, words, base, level, gva).gpa % PAGE_SIZE == gva % PAGE_SIZE
    decreases level
  {
    hide View, V, R, W, X, Ppn, VpnOf, Span;
    var e := words(Host(g, base + 8 * VpnOf(gva, level)).value);
    if R(e) || W(e) || X(e) {
      LeafOffset(level, e, gva);
    } else {
      WalkOffset(scheme, g, words, Ppn(e) * PAGE_SIZE, level - 1, gva);
    }
  }

  lemma LeafOffset(level: nat, e: nat, gva: nat)
    requires level <= 4
    ensures (Ppn(e) * PAGE_SIZE + gva % Size(level)) % PAGE_SIZE == gva % PAGE_SIZE
  {
    hide Ppn;
    DivDiv(gva, PAGE_SIZE, Span(level));
    var k := (gva / PAGE_SIZE) % Span(level);
    DivModUnique(Ppn(e) * PAGE_SIZE + gva % Size(level), PAGE_SIZE, Ppn(e) + k, gva % PAGE_SIZE);
  }
}
