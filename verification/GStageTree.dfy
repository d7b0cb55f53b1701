/** The Sv39x4 table tree as a value: what the hardware reads out of it, the shape every
    reachable tree has, and what writing one entry does to the whole address space.

    Guest addresses are counted in 4 KiB pages: page `n` stands for the guest-physical
    addresses [4096 n, 4096 n + 4096), and there are 2^29 of them. */
module GStageTree {
  import opened Bits
  import opened PageTable

  datatype Option<+T> = None | Some(value: T)

  /** Guest pages addressable by Sv39x4 (41-bit guest-physical addresses). */
  const PAGES: nat := 0x2000_0000
  const FIRST_LV_PAGE_TABLE_LEN: nat := 2048

  /** Table address to the entries stored there. */
  type Tables = map<nat, seq<nat>>

  /** Translation of one guest page: the host page number, the entry's flags, the leaf's level. */
  datatype Leaf = Leaf(page: nat, flags: nat, level: nat)

  /** A place in the tree: the table of `level` whose range is number `prefix` among its peers. */
  datatype Node = Node(level: nat, prefix: nat)

  const ROOT := Node(2, 0)

  function Len(level: nat): nat {
    if level == 2 then FIRST_LV_PAGE_TABLE_LEN else PAGE_TABLE_LEN
  }

  function Index(level: nat, n: nat): (i: nat)
    requires level <= 2
    ensures i < Len(level)
  {
    (n / Span(level)) % Len(level)
  }

  /** The node whose table translates page `n` at `level`. */
  function NodeOf(level: nat, n: nat): Node
    requires level <= 2
  {
    if level == 2 then ROOT else Node(level, n / Span(level + 1))
  }

  /** The walk the hardware performs (section 4.3.2 of the privileged specification, as used by
      section 8.5.1): an absent table, an invalid entry, a misaligned superpage and a pointer at the
      last level all fault. The checks of permissions, U, A and D are not part of it; the builder is only
      asked for leaves that pass the first two. */
  function Walk(tables: Tables, addr: nat, level: nat, n: nat): (r: Option<Leaf>)
    requires level <= 2
    ensures r.Some? ==> r.value.level <= level
    decreases level
  {
    if addr !in tables || |tables[addr]| != Len(level) then None
    else
      var e := tables[addr][Index(level, n)];
      if LeafEntry(e) then
        if Ppn(e) % Span(level) == 0 then Some(Leaf(Ppn(e) + n % Span(level), Flags(e), level)) else None
      else if PointerEntry(e) && level > 0 then Walk(tables, Ppn(e) * PAGE_SIZE, level - 1, n)
      else None
  }

  /** The translation of page `n` by the tree at `root`. */
  function View(root: nat, tables: Tables, n: nat): (r: Option<Leaf>)
    ensures r.Some? ==> r.value.level <= 2
  {
    Walk(tables, root, 2, n)
  }

  /** The host-physical address of a guest-physical one; address bits above 40 take no part. */
  function GTranslate(root: nat, tables: Tables, gpa: nat): Option<nat> {
    match View(root, tables, (gpa / PAGE_SIZE) % PAGES)
    case Some(leaf) => Some(leaf.page * PAGE_SIZE + gpa % PAGE_SIZE)
    case None => None
  }

  ghost predicate SameView(root: nat, tables: Tables, tables': Tables) {
    forall n: nat :: n < PAGES ==> View(root, tables', n) == View(root, tables, n)
  }

  /** `tables'` translates the slot of page `s` at `level` through one leaf at host page `ppn`, and
      every other page as `tables` does. */
  ghost predicate Installed(root: nat, tables: Tables, tables': Tables, level: nat, s: nat, ppn: nat, flags: nat)
    requires level <= 2
  {
    forall n: nat :: n < PAGES ==>
      View(root, tables', n) == if n / Span(level) == s / Span(level)
                                then Some(Leaf(ppn + n % Span(level), flags, level))
                                else View(root, tables, n)
  }

  // The shape of every reachable tree.

  function Child(k: Node, j: nat): Node
    requires k.level > 0
  {
    Node(k.level - 1, k.prefix * 512 + j)
  }

  function Parent(k: Node): Node {
    if k.level == 0 then Node(1, k.prefix / 512) else ROOT
  }

  function ParentIndex(k: Node): nat {
    if k.level == 0 then k.prefix % 512 else k.prefix
  }

  predicate InRange(k: Node) {
    || k == ROOT
    || (k.level == 1 && k.prefix < FIRST_LV_PAGE_TABLE_LEN)
    || (k.level == 0 && k.prefix < FIRST_LV_PAGE_TABLE_LEN * 512)
  }

  predicate TableAddress(a: nat) {
    0 < a < PHYS_LIMIT && a % PAGE_SIZE == 0
  }

  // Extents in host memory.

  /** Address `h` is a byte of some table. */
  ghost predicate InTable(tables: Tables, h: nat) {
    exists t <- tables :: t <= h < t + 8 * |tables[t]|
  }

  /** The page at `a` has no byte in common with any table. */
  ghost predicate Outside(tables: Tables, a: nat) {
    forall t <- tables :: a + PAGE_SIZE <= t || t + 8 * |tables[t]| <= a
  }

  /** An entry is empty, an aligned leaf, or a pointer to the node below it. */
  predicate EntryOk(nodes: map<Node, nat>, k: Node, j: nat, e: nat)
    requires k.level <= 2
  {
    || e == 0
    || (LeafEntry(e) && Ppn(e) % Span(k.level) == 0)
    || (PointerEntry(e) && k.level > 0 && Child(k, j) in nodes && Ppn(e) * PAGE_SIZE == nodes[Child(k, j)])
  }

  /** Every node has a table of its own level's length, and its own only. */
  ghost predicate Located(tables: Tables, nodes: map<Node, nat>) {
    && (forall k <- nodes :: InRange(k) && TableAddress(nodes[k])
                             && nodes[k] in tables && |tables[nodes[k]]| == Len(k.level))
    && (forall k, k' :: k in nodes && k' in nodes && nodes[k] == nodes[k'] ==> k == k')
  }

  ghost predicate EntriesOk(tables: Tables, nodes: map<Node, nat>)
    requires Located(tables, nodes)
  {
    forall k, j: nat :: k in nodes && j < Len(k.level) ==> EntryOk(nodes, k, j, tables[nodes[k]][j])
  }

  /** Every node but the root is pointed to by its parent's entry. */
  ghost predicate Linked(tables: Tables, nodes: map<Node, nat>)
    requires Located(tables, nodes)
  {
    forall k <- nodes :: k.level < 2 ==>
                           Parent(k) in nodes && PointerEntry(tables[nodes[Parent(k)]][ParentIndex(k)])
  }

  /** The shape of the tree at `root`, where `nodes` says which table serves which node. */
  ghost predicate TreeInv(root: nat, tables: Tables, nodes: map<Node, nat>) {
    && ROOT in nodes && nodes[ROOT] == root
    && Located(tables, nodes) && EntriesOk(tables, nodes) && Linked(tables, nodes)
  }

  /** No table is pointed to twice, and a pointer leads exactly one level down. */
  lemma OneParent(root: nat, tables: Tables, nodes: map<Node, nat>, k: Node, j: nat, k': Node, j': nat)
    requires TreeInv(root, tables, nodes) && k in nodes && k' in nodes && j < Len(k.level) && j' < Len(k'.level)
    requires PointerEntry(tables[nodes[k]][j]) && PointerEntry(tables[nodes[k']][j'])
    ensures k.level > 0 && Child(k, j) in nodes && nodes[Child(k, j)] == Ppn(tables[nodes[k]][j]) * PAGE_SIZE
    ensures Ppn(tables[nodes[k]][j]) == Ppn(tables[nodes[k']][j']) ==> k == k' && j == j'
    ensures Ppn(tables[nodes[k]][j]) * PAGE_SIZE != root
  {
    hide V, R, W, X, Ppn, Flags, Index, Span;
    ZeroEntry();
    assert EntryOk(nodes, k, j, tables[nodes[k]][j]) && EntryOk(nodes, k', j', tables[nodes[k']][j']);
    if Ppn(tables[nodes[k]][j]) == Ppn(tables[nodes[k']][j']) {
      ChildUnique(k, j, k', j');
    }
  }

  /** `k` is one of the nodes below entry `j` of `above`. */
  predicate Beneath(k: Node, above: Node, j: nat) {
    || (k.level + 1 == above.level && k.prefix == above.prefix * 512 + j)
    || (k.level + 2 == above.level && k.prefix / 512 == above.prefix * 512 + j)
  }

  predicate Through(k: Node, j: nat, n: nat)
    requires k.level <= 2
  {
    NodeOf(k.level, n) == k && Index(k.level, n) == j
  }

  function Prune(nodes: map<Node, nat>, k: Node, j: nat): map<Node, nat> {
    map k' | k' in nodes && !Beneath(k', k, j) :: nodes[k']
  }

  function SetEntry(tables: Tables, addr: nat, j: nat, e: nat): Tables
    requires addr in tables && j < |tables[addr]|
  {
    var table: seq<nat> := tables[addr][j := e];
    tables[addr := table]
  }

  lemma NodeOfChild(level: nat, n: nat)
    requires level < 2 && n < PAGES
    ensures Child(NodeOf(level + 1, n), Index(level + 1, n)) == NodeOf(level, n)
    ensures Parent(NodeOf(level, n)) == NodeOf(level + 1, n)
    ensures ParentIndex(NodeOf(level, n)) == Index(level + 1, n)
    ensures InRange(NodeOf(level, n))
  {
  }

  /** Where a node of the path exists, the walk reaches it. */
  lemma {:induction false} WalkReaches(root: nat, tables: Tables, nodes: map<Node, nat>, level: nat, n: nat)
    requires TreeInv(root, tables, nodes) && level <= 2 && n < PAGES && NodeOf(level, n) in nodes
    ensures View(root, tables, n) == Walk(tables, nodes[NodeOf(level, n)], level, n)
    decreases 2 - level
  {
    hide V, R, W, X, Ppn, Flags, Index, Span;
    ZeroEntry();
    if level < 2 {
      NodeOfChild(level, n);
      var k := NodeOf(level + 1, n);
      assert EntryOk(nodes, k, Index(level + 1, n), tables[nodes[k]][Index(level + 1, n)]);
      WalkReaches(root, tables, nodes, level + 1, n);
    }
  }

  /** Two trees with the same entries along the path of `n` translate `n` alike. */
  lemma {:induction false} WalkFrame(root: nat, tables: Tables, nodes: map<Node, nat>, tables': Tables,
                                     level: nat, n: nat)
    requires TreeInv(root, tables, nodes) && level <= 2 && n < PAGES && NodeOf(level, n) in nodes
    requires forall k <- nodes :: nodes[k] in tables' && |tables'[nodes[k]]| == |tables[nodes[k]]|
    requires forall l: nat :: l <= level && NodeOf(l, n) in nodes ==>
                                tables'[nodes[NodeOf(l, n)]][Index(l, n)] == tables[nodes[NodeOf(l, n)]][Index(l, n)]
    ensures Walk(tables', nodes[NodeOf(level, n)], level, n) == Walk(tables, nodes[NodeOf(level, n)], level, n)
    decreases level
  {
    hide V, R, W, X, Ppn, Flags, Index, Span;
    ZeroEntry();
    var k := NodeOf(level, n);
    var e := tables[nodes[k]][Index(level, n)];
    assert EntryOk(nodes, k, Index(level, n), e);
    if level > 0 && PointerEntry(e) {
      NodeOfChild(level - 1, n);
      WalkFrame(root, tables, nodes, tables', level - 1, n);
    }
  }

  // Writing a leaf.

  lemma PruneKeepsParents(nodes: map<Node, nat>, k: Node, j: nat, k': Node)
    requires InRange(k) && j < Len(k.level) && InRange(k') && k'.level < 2
    requires !Beneath(k', k, j)
    ensures !Beneath(Parent(k'), k, j)
    ensures Parent(k') == k ==> ParentIndex(k') != j
  {
  }

  lemma ChildUnique(k: Node, j: nat, k': Node, j': nat)
    requires InRange(k) && InRange(k') && k.level > 0 && k'.level > 0 && j < Len(k.level) && j' < Len(k'.level)
    requires Child(k, j) == Child(k', j')
    ensures k == k' && j == j'
  {
  }

  lemma ParentOfChild(k: Node, j: nat)
    requires InRange(k) && k.level > 0 && j < Len(k.level)
    ensures InRange(Child(k, j)) && Parent(Child(k, j)) == k && ParentIndex(Child(k, j)) == j
  {
  }

  lemma LeafWriteEntries(root: nat, tables: Tables, nodes: map<Node, nat>, k: Node, j: nat, e: nat)
    requires TreeInv(root, tables, nodes) && k in nodes && j < Len(k.level)
    requires LeafEntry(e) && Ppn(e) % Span(k.level) == 0
    ensures Located(SetEntry(tables, nodes[k], j, e), Prune(nodes, k, j))
    ensures EntriesOk(SetEntry(tables, nodes[k], j, e), Prune(nodes, k, j))
  {
    hide V, R, W, X, Ppn, Flags, Index, Span;
    var tables', nodes' := SetEntry(tables, nodes[k], j, e), Prune(nodes, k, j);
    assert Located(tables', nodes');
    forall k', j': nat | k' in nodes' && j' < Len(k'.level)
      ensures EntryOk(nodes', k', j', tables'[nodes'[k']][j'])
    {
      LeafWriteEntry(root, tables, nodes, k, j, e, k', j');
    }
  }

  lemma LeafWriteEntry(root: nat, tables: Tables, nodes: map<Node, nat>, k: Node, j: nat, e: nat, k': Node, j': nat)
    requires TreeInv(root, tables, nodes) && k in nodes && j < Len(k.level)
    requires LeafEntry(e) && Ppn(e) % Span(k.level) == 0
    requires k' in Prune(nodes, k, j) && j' < Len(k'.level)
    requires Located(SetEntry(tables, nodes[k], j, e), Prune(nodes, k, j))
    ensures var tables', nodes' := SetEntry(tables, nodes[k], j, e), Prune(nodes, k, j);
            EntryOk(nodes', k', j', tables'[nodes'[k']][j'])
  {
    hide V, R, W, X, Ppn, Flags, Index, Span;
    assert EntryOk(nodes, k', j', tables[nodes[k']][j']);
    if k'.level > 0 && Beneath(Child(k', j'), k, j) { BeneathChild(k', j', k, j); }
  }

  lemma LeafWriteLinked(root: nat, tables: Tables, nodes: map<Node, nat>, k: Node, j: nat, e: nat)
    requires TreeInv(root, tables, nodes) && k in nodes && j < Len(k.level)
    requires Located(SetEntry(tables, nodes[k], j, e), Prune(nodes, k, j))
    ensures Linked(SetEntry(tables, nodes[k], j, e), Prune(nodes, k, j))
  {
    hide V, R, W, X, Ppn, Flags, Index, Span;
    var tables', nodes' := SetEntry(tables, nodes[k], j, e), Prune(nodes, k, j);
    forall k' | k' in nodes' && k'.level < 2
      ensures Parent(k') in nodes' && PointerEntry(tables'[nodes'[Parent(k')]][ParentIndex(k')])
    {
      PruneKeepsParents(nodes, k, j, k');
    }
  }

  /** Writing an aligned leaf keeps the shape, once the nodes below the entry are given up. */
  lemma LeafWriteInv(root: nat, tables: Tables, nodes: map<Node, nat>, k: Node, j: nat, e: nat)
    requires TreeInv(root, tables, nodes) && k in nodes && j < Len(k.level)
    requires LeafEntry(e) && Ppn(e) % Span(k.level) == 0
    ensures TreeInv(root, SetEntry(tables, nodes[k], j, e), Prune(nodes, k, j))
  {
    hide V, R, W, X, Ppn, Flags, Index, Span;
    LeafWriteEntries(root, tables, nodes, k, j, e);
    LeafWriteLinked(root, tables, nodes, k, j, e);
  }

  lemma BeneathChild(k': Node, j': nat, k: Node, j: nat)
    requires InRange(k') && k'.level > 0 && j' < Len(k'.level) && InRange(k) && j < Len(k.level)
    requires Beneath(Child(k', j'), k, j)
    ensures (k' == k && j' == j) || Beneath(k', k, j)
  {
  }

  /** `tables'` differs from `tables`, as far as the tree goes, at most in entry `j` of node `k`. */
  ghost predicate SameBut(tables: Tables, tables': Tables, nodes: map<Node, nat>, k: Node, j: nat)
    requires Located(tables, nodes)
  {
    forall k' <- nodes ::
      && nodes[k'] in tables' && |tables'[nodes[k']]| == |tables[nodes[k']]|
      && forall i: nat :: i < |tables[nodes[k']]| && !(k' == k && i == j) ==>
           tables'[nodes[k']][i] == tables[nodes[k']][i]
  }

  lemma ViewFrame(root: nat, tables: Tables, nodes: map<Node, nat>, tables': Tables, k: Node, j: nat, n: nat)
    requires TreeInv(root, tables, nodes) && k in nodes && n < PAGES && !Through(k, j, n)
    requires SameBut(tables, tables', nodes, k, j)
    ensures View(root, tables', n) == View(root, tables, n)
  {
    hide V, R, W, X, Ppn, Flags, Index, Span;
    forall l: nat | l <= 2 && NodeOf(l, n) in nodes
      ensures tables'[nodes[NodeOf(l, n)]][Index(l, n)] == tables[nodes[NodeOf(l, n)]][Index(l, n)]
    {
      assert NodeOf(l, n).level == l;
    }
    WalkFrame(root, tables, nodes, tables', 2, n);
  }

  lemma SetEntrySameBut(tables: Tables, nodes: map<Node, nat>, k: Node, j: nat, e: nat)
    requires Located(tables, nodes) && k in nodes && j < Len(k.level)
    ensures SameBut(tables, SetEntry(tables, nodes[k], j, e), nodes, k, j)
  {
    hide V, R, W, X, Ppn, Flags, Index, Span;
  }

  lemma LeafWriteBelow(root: nat, tables: Tables, nodes: map<Node, nat>, k: Node, j: nat, e: nat, n: nat)
    requires TreeInv(root, tables, nodes) && k in nodes && j < Len(k.level) && n < PAGES && Through(k, j, n)
    requires LeafEntry(e) && Ppn(e) % Span(k.level) == 0
    ensures View(root, SetEntry(tables, nodes[k], j, e), n)
         == Some(Leaf(Ppn(e) + n % Span(k.level), Flags(e), k.level))
  {
    hide V, R, W, X, Ppn, Flags, Index, Span;
    var tables', nodes' := SetEntry(tables, nodes[k], j, e), Prune(nodes, k, j);
    LeafWriteInv(root, tables, nodes, k, j, e);
    assert k in nodes' && nodes'[k] == nodes[k];
    WalkReaches(root, tables', nodes', k.level, n);
    assert tables'[nodes[k]][j] == e;
  }

  /** ... and afterwards exactly the pages below the entry translate through the new leaf. */
  lemma LeafWriteView(root: nat, tables: Tables, nodes: map<Node, nat>, k: Node, j: nat, e: nat, n: nat)
    requires TreeInv(root, tables, nodes) && k in nodes && j < Len(k.level) && n < PAGES
    requires LeafEntry(e) && Ppn(e) % Span(k.level) == 0
    ensures View(root, SetEntry(tables, nodes[k], j, e), n)
         == if Through(k, j, n) then Some(Leaf(Ppn(e) + n % Span(k.level), Flags(e), k.level))
            else View(root, tables, n)
  {
    hide V, R, W, X, Ppn, Flags, Index, Span;
    var tables' := SetEntry(tables, nodes[k], j, e);
    if Through(k, j, n) {
      LeafWriteBelow(root, tables, nodes, k, j, e, n);
    } else {
      SetEntrySameBut(tables, nodes, k, j, e);
      ViewFrame(root, tables, nodes, tables', k, j, n);
    }
  }

  // Hanging a new, empty table below an empty entry.

  function EmptyTable(len: nat): seq<nat> {
    seq(len, _ => 0)
  }

  function Hang(tables: Tables, addr: nat, j: nat, below: nat, e: nat): Tables
    requires addr in tables && j < |tables[addr]|
  {
    SetEntry(tables, addr, j, e)[below := EmptyTable(PAGE_TABLE_LEN)]
  }

  ghost predicate CanHang(tables: Tables, nodes: map<Node, nat>, k: Node, j: nat, below: nat, e: nat)
    requires Located(tables, nodes)
  {
    && k in nodes && k.level > 0 && j < Len(k.level) && tables[nodes[k]][j] == 0
    && below !in tables && TableAddress(below)
    && PointerEntry(e) && Ppn(e) * PAGE_SIZE == below
  }

  lemma HangUnused(root: nat, tables: Tables, nodes: map<Node, nat>, k: Node, j: nat, below: nat, e: nat)
    requires TreeInv(root, tables, nodes) && CanHang(tables, nodes, k, j, below, e)
    ensures InRange(Child(k, j)) && Child(k, j) !in nodes
  {
    hide V, R, W, X, Ppn, Flags, Index, Span;
    ZeroEntry();
    ParentOfChild(k, j);
  }

  lemma HangNew(root: nat, tables: Tables, nodes: map<Node, nat>, k: Node, j: nat, below: nat, e: nat)
    requires TreeInv(root, tables, nodes) && CanHang(tables, nodes, k, j, below, e)
    ensures Child(k, j) !in nodes
    ensures Located(Hang(tables, nodes[k], j, below, e), nodes[Child(k, j) := below])
  {
    hide V, R, W, X, Ppn, Flags, Index, Span, EntriesOk, Linked;
    HangUnused(root, tables, nodes, k, j, below, e);
  }

  lemma HangSameBut(tables: Tables, nodes: map<Node, nat>, k: Node, j: nat, below: nat, e: nat)
    requires Located(tables, nodes) && CanHang(tables, nodes, k, j, below, e)
    ensures SameBut(tables, Hang(tables, nodes[k], j, below, e), nodes, k, j)
  {
    hide V, R, W, X, Ppn, Flags, Index, Span;
  }

  lemma HangEntries(root: nat, tables: Tables, nodes: map<Node, nat>, k: Node, j: nat, below: nat, e: nat)
    requires TreeInv(root, tables, nodes) && CanHang(tables, nodes, k, j, below, e)
    requires Located(Hang(tables, nodes[k], j, below, e), nodes[Child(k, j) := below])
    requires Child(k, j) !in nodes
    ensures EntriesOk(Hang(tables, nodes[k], j, below, e), nodes[Child(k, j) := below])
  {
    hide V, R, W, X, Ppn, Flags, Index, Span;
    var tables', nodes' := Hang(tables, nodes[k], j, below, e), nodes[Child(k, j) := below];
    forall k', j': nat | k' in nodes' && j' < Len(k'.level)
      ensures EntryOk(nodes', k', j', tables'[nodes'[k']][j'])
    {
      if k' in nodes && !(k' == k && j' == j) {
        assert EntryOk(nodes, k', j', tables[nodes[k']][j']);
      }
    }
  }

  lemma HangLinked(root: nat, tables: Tables, nodes: map<Node, nat>, k: Node, j: nat, below: nat, e: nat)
    requires TreeInv(root, tables, nodes) && CanHang(tables, nodes, k, j, below, e)
    requires Located(Hang(tables, nodes[k], j, below, e), nodes[Child(k, j) := below])
    requires Child(k, j) !in nodes
    ensures Linked(Hang(tables, nodes[k], j, below, e), nodes[Child(k, j) := below])
  {
    hide V, R, W, X, Ppn, Flags, Index, Span;
    ParentOfChild(k, j);
  }

  /** Hanging an empty table keeps the shape ... */
  lemma HangInv(root: nat, tables: Tables, nodes: map<Node, nat>, k: Node, j: nat, below: nat, e: nat)
    requires TreeInv(root, tables, nodes) && CanHang(tables, nodes, k, j, below, e)
    ensures Child(k, j) !in nodes
    ensures TreeInv(root, Hang(tables, nodes[k], j, below, e), nodes[Child(k, j) := below])
  {
    hide V, R, W, X, Ppn, Flags, Index, Span;
    HangNew(root, tables, nodes, k, j, below, e);
    HangEntries(root, tables, nodes, k, j, below, e);
    HangLinked(root, tables, nodes, k, j, below, e);
  }

  lemma HangBelow(root: nat, tables: Tables, nodes: map<Node, nat>, k: Node, j: nat, below: nat, e: nat, n: nat)
    requires TreeInv(root, tables, nodes) && CanHang(tables, nodes, k, j, below, e) && n < PAGES && Through(k, j, n)
    ensures View(root, tables, n) == None == View(root, Hang(tables, nodes[k], j, below, e), n)
  {
    var tables', nodes' := Hang(tables, nodes[k], j, below, e), nodes[Child(k, j) := below];
    WalkReaches(root, tables, nodes, k.level, n);
    HangInv(root, tables, nodes, k, j, below, e);
    NodeOfChild(k.level - 1, n);
    WalkReaches(root, tables', nodes', k.level - 1, n);
    assert tables'[below][Index(k.level - 1, n)] == 0;
  }

  /** ... and changes the translation of no page. */
  lemma HangView(root: nat, tables: Tables, nodes: map<Node, nat>, k: Node, j: nat, below: nat, e: nat, n: nat)
    requires TreeInv(root, tables, nodes) && CanHang(tables, nodes, k, j, below, e) && n < PAGES
    ensures View(root, Hang(tables, nodes[k], j, below, e), n) == View(root, tables, n)
  {
    hide V, R, W, X, Ppn, Flags, Index, Span;
    if Through(k, j, n) {
      HangBelow(root, tables, nodes, k, j, below, e, n);
    } else {
      HangSameBut(tables, nodes, k, j, below, e);
      ViewFrame(root, tables, nodes, Hang(tables, nodes[k], j, below, e), k, j, n);
    }
  }

  /** Both facts about hanging a table, for the whole address space. */
  lemma HangTable(root: nat, tables: Tables, nodes: map<Node, nat>, k: Node, j: nat, below: nat)
    requires TreeInv(root, tables, nodes) && k in nodes && k.level > 0 && j < Len(k.level)
    requires tables[nodes[k]][j] == 0 && below !in tables && TableAddress(below)
    ensures var tables' := Hang(tables, nodes[k], j, below, NewEntry(below / PAGE_SIZE, VALID));
            && TreeInv(root, tables', nodes[Child(k, j) := below])
            && SameView(root, tables, tables')
  {
    var e := NewEntry(below / PAGE_SIZE, VALID);
    PointerRoundTrip(below);
    DecodeMeaning(e);
    HangInv(root, tables, nodes, k, j, below, e);
    forall n: nat | n < PAGES
      ensures View(root, Hang(tables, nodes[k], j, below, e), n) == View(root, tables, n)
    {
      HangView(root, tables, nodes, k, j, below, e, n);
    }
  }

  lemma SameQuotient(a: nat, b: nat)
    ensures a / 512 == b / 512 && a % 512 == b % 512 <==> a == b
  {
  }

  lemma DivTwice(a: nat)
    ensures a / 0x4_0000 == a / 512 / 512
  {
    DivDiv(a, 512, 512);
  }

  lemma RootIndex(n: nat)
    requires n < PAGES
    ensures Index(2, n) == n / 0x4_0000 < FIRST_LV_PAGE_TABLE_LEN
  {
  }

  lemma SlotOf(level: nat, s: nat, n: nat)
    requires level <= 2 && s < PAGES && n < PAGES
    ensures Through(NodeOf(level, s), Index(level, s), n) <==> n / Span(level) == s / Span(level)
  {
    if level == 2 {
      RootIndex(s);
      RootIndex(n);
    } else if level == 1 {
      SameQuotient(s / 512, n / 512);
      DivTwice(s);
      DivTwice(n);
    } else {
      SameQuotient(s, n);
    }
  }

  lemma LeafWriteAt(root: nat, tables: Tables, nodes: map<Node, nat>, level: nat, s: nat, ppn: nat, flags: nat, n: nat)
    requires TreeInv(root, tables, nodes) && level <= 2 && s < PAGES && NodeOf(level, s) in nodes && n < PAGES
    requires ppn < PPN_LIMIT && ppn % Span(level) == 0 && flags < 256 && LeafEntry(flags)
    ensures View(root, SetEntry(tables, nodes[NodeOf(level, s)], Index(level, s), NewEntry(ppn, flags)), n)
         == if n / Span(level) == s / Span(level) then Some(Leaf(ppn + n % Span(level), flags, level))
            else View(root, tables, n)
  {
    hide V, R, W, X, Ppn, Flags, Index, Span, View, NewEntry;
    EncodeRoundTrip(ppn, flags);
    LeafWriteView(root, tables, nodes, NodeOf(level, s), Index(level, s), NewEntry(ppn, flags), n);
    SlotOf(level, s, n);
  }

  /** Both facts about writing a leaf for the slot of page `s`, for the whole address space. */
  lemma LeafWrite(root: nat, tables: Tables, nodes: map<Node, nat>, level: nat, s: nat, ppn: nat, flags: nat)
    requires TreeInv(root, tables, nodes) && level <= 2 && s < PAGES && NodeOf(level, s) in nodes
    requires ppn < PPN_LIMIT && ppn % Span(level) == 0 && flags < 256 && LeafEntry(flags)
    ensures var k, j := NodeOf(level, s), Index(level, s);
            var tables' := SetEntry(tables, nodes[k], j, NewEntry(ppn, flags));
            && TreeInv(root, tables', Prune(nodes, k, j))
            && Installed(root, tables, tables', level, s, ppn, flags)
  {
    EncodeRoundTrip(ppn, flags);
    LeafWriteInv(root, tables, nodes, NodeOf(level, s), Index(level, s), NewEntry(ppn, flags));
    forall n: nat | n < PAGES {
      LeafWriteAt(root, tables, nodes, level, s, ppn, flags, n);
    }
  }

  lemma PathTable(root: nat, tables: Tables, nodes: map<Node, nat>, level: nat, s: nat)
    requires TreeInv(root, tables, nodes) && level <= 2 && NodeOf(level, s) in nodes
    ensures NodeOf(level, s).level == level
    ensures nodes[NodeOf(level, s)] in tables && |tables[nodes[NodeOf(level, s)]]| == Len(level)
    ensures ROOT in nodes && nodes[ROOT] == root && NodeOf(2, s) == ROOT
  {
  }

  /** What the entry met on the path of page `s` says about its translation. */
  lemma PathEntry(root: nat, tables: Tables, nodes: map<Node, nat>, level: nat, s: nat)
    requires TreeInv(root, tables, nodes) && level <= 2 && s < PAGES && NodeOf(level, s) in nodes
    ensures nodes[NodeOf(level, s)] in tables && |tables[nodes[NodeOf(level, s)]]| == Len(level)
    ensures var e := tables[nodes[NodeOf(level, s)]][Index(level, s)];
            && (AlreadyCreated(e) && IsLeaf(e) ==>
                  View(root, tables, s).Some? && View(root, tables, s).value.level == level)
            && (AlreadyCreated(e) && !IsLeaf(e) && level > 0 ==>
                  NodeOf(level - 1, s) in nodes && nodes[NodeOf(level - 1, s)] == EntirePpn(e) * PAGE_SIZE)
            && (!AlreadyCreated(e) ==> e == 0 && View(root, tables, s) == None)
            && (!IsLeaf(e) && level == 0 ==> View(root, tables, s) == None)
    ensures View(root, tables, s).Some? ==> View(root, tables, s).value.level <= level
  {
    hide V, R, W, X, Ppn, Flags, Index, Span, IsLeaf, AlreadyCreated, EntirePpn;
    ZeroEntry();
    var k := NodeOf(level, s);
    var e := tables[nodes[k]][Index(level, s)];
    assert EntryOk(nodes, k, Index(level, s), e);
    DecodeMeaning(e);
    WalkReaches(root, tables, nodes, level, s);
    if level > 0 { NodeOfChild(level - 1, s); }
  }

  lemma SlotRange(level: nat, s: nat, n: nat)
    requires level <= 2 && s % Span(level) == 0
    ensures n / Span(level) == s / Span(level) <==> s <= n < s + Span(level)
    ensures s <= n < s + Span(level) ==> n % Span(level) == n - s
  {
  }

  lemma SameSlotAbove(level: nat, l: nat, n: nat, s: nat)
    requires level < l <= 2 && n / Span(level) == s / Span(level)
    ensures Index(l, n) == Index(l, s)
  {
    if level == 0 {
    } else {
      DivTwice(n);
      DivTwice(s);
    }
  }

  /** A leaf larger than `level` translates all pages of a slot or none. */
  lemma {:induction false} LargerLeafCoversSlot(tables: Tables, addr: nat, l: nat, level: nat, n: nat, s: nat)
    requires level <= 2 && l <= 2 && n / Span(level) == s / Span(level)
    requires Walk(tables, addr, l, n).Some? && Walk(tables, addr, l, n).value.level > level
    ensures Walk(tables, addr, l, s).Some?
    ensures Walk(tables, addr, l, s).value.level == Walk(tables, addr, l, n).value.level
    decreases l
  {
    SameSlotAbove(level, l, n, s);
    var e := tables[addr][Index(l, n)];
    if !LeafEntry(e) {
      LargerLeafCoversSlot(tables, Ppn(e) * PAGE_SIZE, l - 1, level, n, s);
    }
  }

  lemma WrapHelper(m: nat, a: nat, b: nat)
    requires a > 0 && b > 0
    ensures a * b > 0 && (m % (a * b)) / a == (m / a) % b
  {
    DivDiv(m, a, b);
    DivNonNegative(m, a);
    DivModUnique(m % (a * b), a, (m / a) % b, m % a);
  }

  /** The index fields do not see the page-number bits above the 29th. */
  lemma IndexWrap(level: nat, m: nat)
    requires level <= 2
    ensures Index(level, m % PAGES) == Index(level, m)
  {
    if level == 2 {
      WrapHelper(m, 0x4_0000, 2048);
    } else if level == 1 {
      WrapHelper(m, 512, 0x10_0000);
      ModMod(m / 512, 512, 2048);
    } else {
      ModMod(m, 512, 0x10_0000);
    }
  }

  lemma ModMod(x: nat, a: nat, b: nat)
    requires a > 0 && b > 0
    ensures a * b > 0 && (x % (a * b)) % a == x % a
  {
    DivDiv(x, a, b);
    DivNonNegative(x, a);
    DivModUnique(x % (a * b), a, (x / a) % b, x % a);
  }
}
