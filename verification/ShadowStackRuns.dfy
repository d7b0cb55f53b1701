/** Whole runs of pushes and checked pops: through two address translations, the emulated shadow stack
    is a list. */
module ShadowStackRuns {
  import opened Bits
  import opened PageTable
  import opened GStageTree
  import opened Csrs
  import opened Reassembly
  import opened TwoStage
  import opened ShadowStack

  // What a translation depends on.

  /** Host addresses of the entries a VS-stage walk reads. */
  function Touched(g: GStage, words: Words, base: nat, level: nat, gva: nat): set<nat>
    requires level <= 4
    decreases level
  {
    match Host(g, base + 8 * VpnOf(gva, level))
    case None => {}
    case Some(hpa) =>
      var e := words(hpa);
      {hpa} + (if R(e) || W(e) || X(e) || level == 0 then {} else Touched(g, words, Ppn(e) * PAGE_SIZE, level - 1, gva))
  }

  function Footprint(g: GStage, words: Words, vsatp: nat, gva: nat): set<nat> {
    if VsatpMode(vsatp) == SV39 then Touched(g, words, AtpPpn(vsatp) * PAGE_SIZE, 2, gva)
    else if VsatpMode(vsatp) == SV57 then Touched(g, words, AtpPpn(vsatp) * PAGE_SIZE, 4, gva)
    else {}
  }

  lemma {:induction false} WalkDependsOn(scheme: Scheme, g: GStage, words: Words, words': Words, base: nat,
                                         level: nat, gva: nat)
    requires level <= 4 && forall a <- Touched(g, words, base, level, gva) :: words'(a) == words(a)
    ensures PteWalk(scheme, g, words', base, level, gva) == PteWalk(scheme, g, words, base, level, gva)
    decreases level
  {
    hide Host, VpnOf, LeafTarget, R, W, X, Ppn;
    match Host(g, base + 8 * VpnOf(gva, level))
    case None =>
    case Some(hpa) =>
      assert hpa in Touched(g, words, base, level, gva);
      if level > 0 && !(R(words(hpa)) || W(words(hpa)) || X(words(hpa))) {
        WalkDependsOn(scheme, g, words, words', Ppn(words(hpa)) * PAGE_SIZE, level - 1, gva);
      }
  }

  lemma SlotDependsOn(g: GStage, words: Words, words': Words, vsatp: nat, gva: nat)
    requires forall a <- Footprint(g, words, vsatp, gva) :: words'(a) == words(a)
    ensures SlotAt(g, words', vsatp, gva) == SlotAt(g, words, vsatp, gva)
  {
    hide PteWalk, Host, Touched, AtpPpn, VsatpMode;
    if VsatpMode(vsatp) == SV39 {
      WalkDependsOn(Sv39, g, words, words', AtpPpn(vsatp) * PAGE_SIZE, 2, gva);
    } else if VsatpMode(vsatp) == SV57 {
      WalkDependsOn(Sv57, g, words, words', AtpPpn(vsatp) * PAGE_SIZE, 4, gva);
    }
  }

  // A stack area.

  /** A place for `depth` values below `base`, and the memory `words` it was set up in. */
  datatype Area = Area(g: GStage, vsatp: nat, words: Words, base: nat, depth: nat)

  /** Guest-virtual address of the `i`-th value from the bottom. */
  function AddressOf(area: Area, i: nat): int {
    area.base - 8 * (i + 1)
  }

  function Cell(area: Area, i: nat): Slot
    requires AddressOf(area, i) >= 0
  {
    SlotAt(area.g, area.words, area.vsatp, AddressOf(area, i))
  }

  /** The slots are aligned words, every slot is mapped, no two share a cell, and no slot lies in an entry
      that translates a slot. */
  ghost predicate AreaOk(area: Area) {
    && 8 * area.depth <= area.base < WORD && area.base % 8 == 0
    && (forall i: nat :: i < area.depth ==> Cell(area, i).Ptr?)
    && (forall i: nat, j: nat :: i < area.depth && j < area.depth && Cell(area, i) == Cell(area, j) ==> i == j)
    && (forall i: nat, j: nat :: i < area.depth && j < area.depth ==>
          Cell(area, i).hpa !in Footprint(area.g, area.words, area.vsatp, AddressOf(area, j)))
  }

  /** Host addresses that hold the stack together while `d` values are on it: the live cells, and the
      entries that translate any slot. */
  ghost predicate Protected(area: Area, d: nat, a: nat)
    requires 8 * area.depth <= area.base && d <= area.depth
  {
    || (exists i: nat :: i < d && Cell(area, i) == Ptr(a))
    || (exists i: nat :: i < area.depth && a in Footprint(area.g, area.words, area.vsatp, AddressOf(area, i)))
  }

  /** `s` is the list of values on the stack, bottom first; the entries that translate the slots are as
      they were. The rest of memory is free. */
  ghost predicate Holds(area: Area, st: Stack, s: seq<nat>)
    requires 8 * area.depth <= area.base
  {
    && |s| <= area.depth && st.ssp == area.base - 8 * |s|
    && (forall i: nat :: i < |s| ==> Cell(area, i).Ptr? && st.words(Cell(area, i).hpa) == s[i])
    && (forall i: nat, a: nat :: i < area.depth && a in Footprint(area.g, area.words, area.vsatp, AddressOf(area, i))
          ==> st.words(a) == area.words(a))
  }

  /** Every slot stays where it was. */
  lemma CellStays(area: Area, st: Stack, s: seq<nat>, i: nat)
    requires AreaOk(area) && Holds(area, st, s) && i < area.depth
    ensures SlotAt(area.g, st.words, area.vsatp, AddressOf(area, i)) == Cell(area, i)
  {
    hide SlotAt, Footprint;
    SlotDependsOn(area.g, area.words, st.words, area.vsatp, AddressOf(area, i));
  }

  // Runs of stack operations and guest stores.

  /** A shadow-stack instruction, or stores by the guest, by host address. */
  datatype Act = Do(op: Op) | Stores(stores: map<nat, nat>)

  function Perform(g: GStage, vsatp: nat, st: Stack, act: Act): (r: (Stack, Effect))
    requires st.ssp < WORD
    ensures r.0.ssp < WORD
  {
    match act
    case Do(op) => Step(g, vsatp, st, op)
    case Stores(stores) => (Stack(st.ssp, Patch(st.words, stores)), Retired)
  }

  function Run(g: GStage, vsatp: nat, st: Stack, acts: seq<Act>): (r: (Stack, seq<Effect>))
    requires st.ssp < WORD
    ensures r.0.ssp < WORD
    decreases |acts|
  {
    if acts == [] then (st, [])
    else
      var (st1, e) := Perform(g, vsatp, st, acts[0]);
      var (st2, es) := Run(g, vsatp, st1, acts[1..]);
      (st2, [e] + es)
  }

  lemma RunFirst(g: GStage, vsatp: nat, st: Stack, act: Act, rest: seq<Act>)
    requires st.ssp < WORD
    ensures var p := Perform(g, vsatp, st, act);
            && Run(g, vsatp, st, [act] + rest).0 == Run(g, vsatp, p.0, rest).0
            && Run(g, vsatp, st, [act] + rest).1 == [p.1] + Run(g, vsatp, p.0, rest).1
  {
    hide Perform;
    assert ([act] + rest)[1..] == rest;
  }

  /** A push that faults, and is tried again after the guest has mapped the page, lands one slot below the
      one that faulted; nothing else changes. */
  lemma RetriedPush(g: GStage, vsatp: nat, st: Stack, value: nat, stores: map<nat, nat>)
    requires st.ssp < WORD && Step(g, vsatp, st, Push(value)).1.Raised?
    ensures var words := Patch(st.words, stores);
            var r := Run(g, vsatp, st, [Do(Push(value)), Stores(stores), Do(Push(value))]);
            var low := SlotAt(g, words, vsatp, Down(Down(st.ssp)));
            && r.0.ssp == Down(Down(st.ssp)) != Down(st.ssp) && |r.1| == 3
            && r.1[0] == Raised(STORE_AMO_PAGE_FAULT, Down(st.ssp)) && (r.1[2].Retired? <==> low.Ptr?)
            && (low.Ptr? ==> r.0.words == Store(words, low.hpa, value))
  {
    hide SlotAt, Run, Patch, Store;
    var st1 := Stack(Down(st.ssp), st.words);
    var st2 := Stack(Down(st.ssp), Patch(st.words, stores));
    var again := [Do(Push(value))];
    assert [Do(Push(value)), Stores(stores), Do(Push(value))] == [Do(Push(value))] + ([Stores(stores)] + again);
    assert again == [Do(Push(value))] + [];
    RunFirst(g, vsatp, st, Do(Push(value)), [Stores(stores)] + again);
    RunFirst(g, vsatp, st1, Stores(stores), again);
    RunFirst(g, vsatp, st2, Do(Push(value)), []);
    RunNothing(g, vsatp, Step(g, vsatp, st2, Push(value)).0);
  }

  lemma RunNothing(g: GStage, vsatp: nat, st: Stack)
    requires st.ssp < WORD
    ensures Run(g, vsatp, st, []) == (st, [])
  {
  }

  // The list machine, which knows nothing of memory.

  function AbsStep(s: seq<nat>, act: Act): (seq<nat>, Effect)
    requires act.Do? && act.op.PopCheck? ==> s != []
  {
    match act
    case Do(Push(value)) => (s + [value], Retired)
    case Do(PopCheck(expected)) =>
      (s[..|s| - 1], if s[|s| - 1] == expected then Retired else Raised(SOFTWARE_CHECK_EXCEPTION, SHADOW_STACK_FAULT))
    case Stores(_) => (s, Retired)
  }

  /** The act leaves the stack between empty and full, and guest stores leave what holds it alone. */
  ghost predicate Allowed(area: Area, d: nat, act: Act)
    requires 8 * area.depth <= area.base && d <= area.depth
    ensures Allowed(area, d, act) && act.Do? && act.op.PopCheck? ==> d > 0
  {
    match act
    case Do(Push(_)) => d < area.depth
    case Do(PopCheck(_)) => d > 0
    case Stores(stores) => forall a <- stores :: !Protected(area, d, a)
  }

  ghost predicate Fits(area: Area, s: seq<nat>, acts: seq<Act>)
    requires 8 * area.depth <= area.base
    decreases |acts|
  {
    && |s| <= area.depth
    && (acts == [] || (Allowed(area, |s|, acts[0]) && Fits(area, AbsStep(s, acts[0]).0, acts[1..])))
  }

  ghost function AbsRun(area: Area, s: seq<nat>, acts: seq<Act>): (seq<nat>, seq<Effect>)
    requires 8 * area.depth <= area.base && Fits(area, s, acts)
    decreases |acts|
  {
    if acts == [] then (s, [])
    else
      var (s1, e) := AbsStep(s, acts[0]);
      var (s2, es) := AbsRun(area, s1, acts[1..]);
      (s2, [e] + es)
  }

  lemma PushRefines(area: Area, st: Stack, s: seq<nat>, value: nat)
    requires AreaOk(area) && Holds(area, st, s) && |s| < area.depth
    ensures Step(area.g, area.vsatp, st, Push(value)).1 == Retired
    ensures Holds(area, Step(area.g, area.vsatp, st, Push(value)).0, s + [value])
  {
    hide SlotAt, Footprint;
    CellStays(area, st, s, |s|);
    assert AddressOf(area, |s|) == Down(st.ssp);
    var h := Cell(area, |s|).hpa;
    var st' := Step(area.g, area.vsatp, st, Push(value)).0;
    assert st'.words == Store(st.words, h, value);
    forall i: nat | i < |s| + 1
      ensures Cell(area, i).Ptr? && st'.words(Cell(area, i).hpa) == (s + [value])[i]
    {
    }
  }

  lemma PopRefines(area: Area, st: Stack, s: seq<nat>, expected: nat)
    requires AreaOk(area) && Holds(area, st, s) && s != []
    ensures Step(area.g, area.vsatp, st, PopCheck(expected)).1 == AbsStep(s, Do(PopCheck(expected))).1
    ensures Holds(area, Step(area.g, area.vsatp, st, PopCheck(expected)).0, s[..|s| - 1])
  {
    hide SlotAt, Footprint;
    CellStays(area, st, s, |s| - 1);
    assert AddressOf(area, |s| - 1) == st.ssp;
  }

  lemma StoresRefine(area: Area, st: Stack, s: seq<nat>, stores: map<nat, nat>)
    requires AreaOk(area) && Holds(area, st, s) && Allowed(area, |s|, Stores(stores))
    ensures Holds(area, Stack(st.ssp, Patch(st.words, stores)), s)
  {
    hide SlotAt, Footprint;
    var words' := Patch(st.words, stores);
    forall i: nat | i < |s|
      ensures Cell(area, i).Ptr? && words'(Cell(area, i).hpa) == s[i]
    {
      assert Protected(area, |s|, Cell(area, i).hpa);
    }
    forall i: nat, a: nat | i < area.depth && a in Footprint(area.g, area.words, area.vsatp, AddressOf(area, i))
      ensures words'(a) == area.words(a)
    {
      assert Protected(area, |s|, a);
    }
  }

  lemma PerformRefines(area: Area, st: Stack, s: seq<nat>, act: Act)
    requires AreaOk(area) && Holds(area, st, s) && Allowed(area, |s|, act)
    ensures Perform(area.g, area.vsatp, st, act).1 == AbsStep(s, act).1
    ensures Holds(area, Perform(area.g, area.vsatp, st, act).0, AbsStep(s, act).0)
  {
    hide SlotAt, Footprint, AreaOk, Holds, Protected, Step;
    match act
    case Do(Push(value)) => PushRefines(area, st, s, value);
    case Do(PopCheck(expected)) => PopRefines(area, st, s, expected);
    case Stores(stores) => StoresRefine(area, st, s, stores);
  }

  /** Refinement: over any run of stack instructions and guest stores that leave the live cells and their
      translation alone, matching or not, the emulated shadow stack has the effects of the list machine,
      step by step, and ends holding its list. */
  lemma {:induction false} RunRefines(area: Area, st: Stack, s: seq<nat>, acts: seq<Act>)
    requires AreaOk(area) && Holds(area, st, s) && Fits(area, s, acts)
    ensures Run(area.g, area.vsatp, st, acts).1 == AbsRun(area, s, acts).1
    ensures Holds(area, Run(area.g, area.vsatp, st, acts).0, AbsRun(area, s, acts).0)
    decreases |acts|
  {
    hide Allowed, AbsStep, Perform, AreaOk, Holds;
    HoldsSsp(area, st, s);
    if acts != [] {
      PerformRefines(area, st, s, acts[0]);
      RunRefines(area, Perform(area.g, area.vsatp, st, acts[0]).0, AbsStep(s, acts[0]).0, acts[1..]);
    }
  }

  // Well-nested calls.

  /** Guest stores, and a call returning to `ra` after the body `body`; then the rest. */
  datatype Calls =
    | NoCalls
    | Call(ra: nat, body: Calls, rest: Calls)
    | Storing(stores: map<nat, nat>, rest: Calls)

  function ActsOf(c: Calls): seq<Act> {
    match c
    case NoCalls => []
    case Call(ra, body, rest) => [Do(Push(ra))] + (ActsOf(body) + ([Do(PopCheck(ra))] + ActsOf(rest)))
    case Storing(stores, rest) => [Stores(stores)] + ActsOf(rest)
  }

  /** The calls do not overflow the area, and their stores leave what holds the stack alone. */
  ghost predicate Nested(area: Area, d: nat, c: Calls)
    requires 8 * area.depth <= area.base
    decreases c
  {
    && d <= area.depth
    && match c
       case NoCalls => true
       case Call(_, body, rest) => Nested(area, d + 1, body) && Nested(area, d, rest)
       case Storing(stores, rest) => Allowed(area, d, Stores(stores)) && Nested(area, d, rest)
  }

  function AllRetired(n: nat): seq<Effect> {
    seq(n, _ => Retired)
  }

  lemma AbsRunFirst(area: Area, s: seq<nat>, acts: seq<Act>)
    requires 8 * area.depth <= area.base && acts != [] && |s| <= area.depth && Allowed(area, |s|, acts[0])
    requires Fits(area, AbsStep(s, acts[0]).0, acts[1..])
    ensures Fits(area, s, acts)
    ensures AbsRun(area, s, acts).0 == AbsRun(area, AbsStep(s, acts[0]).0, acts[1..]).0
    ensures AbsRun(area, s, acts).1 == [AbsStep(s, acts[0]).1] + AbsRun(area, AbsStep(s, acts[0]).0, acts[1..]).1
  {
    hide Allowed, AbsStep;
  }

  lemma {:induction false} AbsRunConcat(area: Area, s: seq<nat>, acts: seq<Act>, more: seq<Act>)
    requires 8 * area.depth <= area.base && Fits(area, s, acts) && Fits(area, AbsRun(area, s, acts).0, more)
    ensures Fits(area, s, acts + more)
    ensures AbsRun(area, s, acts + more).0 == AbsRun(area, AbsRun(area, s, acts).0, more).0
    ensures AbsRun(area, s, acts + more).1 == AbsRun(area, s, acts).1 + AbsRun(area, AbsRun(area, s, acts).0, more).1
    decreases |acts|
  {
    hide Allowed, AbsStep;
    if acts == [] {
      assert acts + more == more;
    } else {
      var s1, all := AbsStep(s, acts[0]).0, acts + more;
      assert all[0] == acts[0] && all[1..] == acts[1..] + more && Fits(area, s1, acts[1..]);
      hide AbsRun, Fits;
      AbsRunFirst(area, s, acts);
      AbsRunConcat(area, s1, acts[1..], more);
      AbsRunFirst(area, s, all);
    }
  }

  lemma AbsRunEmpty(area: Area, s: seq<nat>)
    requires 8 * area.depth <= area.base && |s| <= area.depth
    ensures Fits(area, s, []) && AbsRun(area, s, []) == (s, [])
  {
  }

  lemma AbsRunOne(area: Area, s: seq<nat>, act: Act)
    requires 8 * area.depth <= area.base && |s| <= area.depth && Allowed(area, |s|, act)
    ensures Fits(area, s, [act])
    ensures AbsRun(area, s, [act]).0 == AbsStep(s, act).0 && AbsRun(area, s, [act]).1 == [AbsStep(s, act).1]
  {
    hide Protected;
    var r := AbsStep(s, act);
    assert [act][1..] == [];
    assert Fits(area, r.0, []) && AbsRun(area, r.0, []) == (r.0, []);
  }

  /** On the list machine, well-nested calls leave the list as it was and never raise. */
  lemma {:induction false} NestedCallsAbs(area: Area, s: seq<nat>, c: Calls)
    requires 8 * area.depth <= area.base && Nested(area, |s|, c)
    ensures Fits(area, s, ActsOf(c)) && AbsRun(area, s, ActsOf(c)).0 == s
    ensures AbsRun(area, s, ActsOf(c)).1 == AllRetired(|ActsOf(c)|)
    decreases c
  {
    hide AbsRun, Fits, Protected;
    match c
    case NoCalls => AbsRunEmpty(area, s);
    case Storing(stores, rest) =>
      AbsRunOne(area, s, Stores(stores));
      NestedCallsAbs(area, s, rest);
      AbsRunConcat(area, s, [Stores(stores)], ActsOf(rest));
    case Call(ra, body, rest) =>
      var s1 := s + [ra];
      NestedBound(area, |s| + 1, body);
      AbsRunOne(area, s, Do(Push(ra)));
      NestedCallsAbs(area, s1, body);
      AbsRunOne(area, s1, Do(PopCheck(ra)));
      assert s1[..|s1| - 1] == s;
      NestedCallsAbs(area, s, rest);
      AbsRunConcat(area, s1, [Do(PopCheck(ra))], ActsOf(rest));
      AbsRunConcat(area, s1, ActsOf(body), [Do(PopCheck(ra))] + ActsOf(rest));
      AbsRunConcat(area, s, [Do(Push(ra))], ActsOf(body) + ([Do(PopCheck(ra))] + ActsOf(rest)));
  }

  lemma NestedBound(area: Area, d: nat, c: Calls)
    requires 8 * area.depth <= area.base && Nested(area, d, c)
    ensures d <= area.depth
  {
  }

  /** Every well-nested run of calls and returns passes, whatever else their bodies store: no exception is
      raised, `ssp` comes back to where it was, and the values below are intact. */
  lemma NestedCallsPass(area: Area, st: Stack, s: seq<nat>, c: Calls)
    requires AreaOk(area) && Holds(area, st, s) && Nested(area, |s|, c)
    ensures var r := Run(area.g, area.vsatp, st, ActsOf(c));
            r.0.ssp == st.ssp && Holds(area, r.0, s) && r.1 == AllRetired(|ActsOf(c)|)
  {
    hide AreaOk, Run, AbsRun, Fits, Nested, Holds, ActsOf;
    HoldsSsp(area, st, s);
    NestedCallsAbs(area, s, c);
    RunRefines(area, st, s, ActsOf(c));
    HoldsSsp(area, Run(area.g, area.vsatp, st, ActsOf(c)).0, s);
  }

  /** A return to anything but the pushed address raises a software-check exception with the
      shadow-stack code, whatever well-nested calls and stores were made in between. */
  lemma ChangedReturnRaises(area: Area, st: Stack, s: seq<nat>, ra: nat, body: Calls, wrong: nat)
    requires AreaOk(area) && Holds(area, st, s) && Nested(area, |s| + 1, body) && wrong != ra
    ensures var acts := [Do(Push(ra))] + (ActsOf(body) + [Do(PopCheck(wrong))]);
            var r := Run(area.g, area.vsatp, st, acts);
            && r.1 == AllRetired(|acts| - 1) + [Raised(SOFTWARE_CHECK_EXCEPTION, SHADOW_STACK_FAULT)]
            && r.0.ssp == st.ssp
  {
    hide AreaOk, Run, AbsRun, Fits, Holds, ActsOf, Nested, Protected;
    HoldsSsp(area, st, s);
    NestedBound(area, |s| + 1, body);
    var s1 := s + [ra];
    var acts := [Do(Push(ra))] + (ActsOf(body) + [Do(PopCheck(wrong))]);
    AbsRunOne(area, s, Do(Push(ra)));
    NestedCallsAbs(area, s1, body);
    AbsRunOne(area, s1, Do(PopCheck(wrong)));
    AbsRunConcat(area, s1, ActsOf(body), [Do(PopCheck(wrong))]);
    AbsRunConcat(area, s, [Do(Push(ra))], ActsOf(body) + [Do(PopCheck(wrong))]);
    RunRefines(area, st, s, acts);
    HoldsSsp(area, Run(area.g, area.vsatp, st, acts).0, s);
  }

  lemma HoldsSsp(area: Area, st: Stack, s: seq<nat>)
    requires AreaOk(area) && Holds(area, st, s)
    ensures 8 * area.depth <= area.base && |s| <= area.depth && st.ssp == area.base - 8 * |s| < WORD
  {
  }
}
