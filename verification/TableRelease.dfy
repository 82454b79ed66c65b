/**
  mmu_free's recursion (src/mmu.c:78-101): the tables below a table, and what freeing them one
  entry at a time has done so far.
 */
module TableRelease {
  import opened PageBits
  import opened PageAllocator
  import opened PageTable
  import opened PageTree
  import opened TableGrowth

  function Height(x: Node): nat {
    match x
    case Root => 2
    case Mid(_) => 1
    case Low(_, _) => 0
  }

  /** The table below entry i. */
  function Kid(x: Node, i: nat): Node
    requires !x.Low?
  {
    match x
    case Root => Mid(i)
    case Mid(a) => Low(a, i)
  }

  /** The entry of node that leads to x. */
  function Slot(x: Node, node: Node): nat {
    if node.Root? && !x.Root? then x.i else if node.Mid? && x.Low? then x.j else 0
  }

  predicate Under(x: Node, node: Node) {
    node.Root? || x == node || (node.Mid? && x.Low? && x.i == node.i)
  }

  ghost function Nodes(at: Layout, node: Node): set<Node> {
    set x | x in at && Under(x, node)
  }

  /** The tables below the entries before i. */
  ghost function Done(at: Layout, node: Node, i: nat): set<Node> {
    set x | x in at && Under(x, node) && x != node && Slot(x, node) < i
  }

  ghost function Addresses(at: Layout, nodes: set<Node>): set<nat> {
    set x | x in nodes && x in at :: at[x]
  }

  ghost function Indices(pool: PagePool, at: Layout, nodes: set<Node>): set<int> {
    set x | x in nodes && x in at :: Index(pool, at[x])
  }

  ghost predicate Proper(at: Layout) {
    && (forall x :: x in at ==> x.InRange() && at[x] != 0)
    && (forall x, y :: x in at && y in at && x != y ==> at[x] != at[y])
    && (forall i, j :: Low(i, j) in at ==> Mid(i) in at)
  }

  ghost predicate Linked(mem: Memory, at: Layout, x: Node)
    requires x in at
  {
    forall i {:trigger TableAt(mem, at[x])[i]} :: 0 <= i < ENTRIES ==>
      var e := TableAt(mem, at[x])[i];
      if x.Low? then !IsBranch(e)
      else (Kid(x, i) in at <==> IsBranch(e)) && (Kid(x, i) in at ==> Next(e) == at[Kid(x, i)])
  }

  ghost predicate Subtree(pool: PagePool, s: State, node: Node) {
    && Proper(s.at) && node in s.at
    && (forall x :: x in s.at && Under(x, node) ==> Linked(s.mem, s.at, x) && pool.OnePage(s.cells, s.at[x]))
  }

  lemma WholeTree(pool: PagePool, s: State)
    requires Sound(pool, s)
    ensures Subtree(pool, s, Root)
  {
    hide IsValid, HasRwx, Next;
    forall x | x in s.at
      ensures Linked(s.mem, s.at, x)
    {
      match x
      case Root =>
      case Mid(i) => assert MidLinks(s.mem, s.at, i);
      case Low(i, j) => assert LowLeaves(s.mem, s.at, i, j);
    }
  }

  /** The pages of the nodes became free; no other cell changed. */
  ghost predicate Cut(pool: PagePool, at: Layout, nodes: set<Node>, cells: seq<Cell>, cells': seq<Cell>) {
    && |cells'| == |cells|
    && (forall k :: 0 <= k < |cells| ==> cells'[k] == if k in Indices(pool, at, nodes) then FREE else cells[k])
  }

  ghost predicate Frame(at: Layout, nodes: set<Node>, mem: Memory, mem': Memory) {
    forall a :: a !in Addresses(at, nodes) ==> TableAt(mem', a) == TableAt(mem, a)
  }

  /** No entry of these tables is valid any more. */
  ghost predicate Blank(at: Layout, nodes: set<Node>, mem: Memory) {
    forall x :: x in nodes && x in at ==> BlankUpTo(TableAt(mem, at[x]), ENTRIES)
  }

  ghost predicate BlankUpTo(t: Table, n: nat) {
    forall i :: 0 <= i < n && i < ENTRIES ==> !IsValid(t[i])
  }

  /** These tables were given back, each of them once. */
  ghost predicate Once(at: Layout, nodes: set<Node>, freed: seq<nat>) {
    multiset(freed) == multiset(Addresses(at, nodes))
  }

  /** mmu_free of the table node has handled the entries before i. */
  ghost predicate Progress(pool: PagePool, s: State, t: State, node: Node, i: nat, freed: seq<nat>) {
    && t.at == s.at && node in s.at
    && Cut(pool, s.at, Done(s.at, node, i), s.cells, t.cells)
    && Frame(s.at, Done(s.at, node, i) + {node}, s.mem, t.mem)
    && Blank(s.at, Done(s.at, node, i), t.mem) && BlankUpTo(TableAt(t.mem, s.at[node]), i)
    && (forall j :: i <= j < ENTRIES ==> TableAt(t.mem, s.at[node])[j] == TableAt(s.mem, s.at[node])[j])
    && Once(s.at, Done(s.at, node, i), freed)
  }

  /** What mmu_free of the table node has done in the end. */
  ghost predicate Gone(pool: PagePool, s: State, t: State, node: Node, freed: seq<nat>) {
    && t.at == s.at
    && Cut(pool, s.at, Nodes(s.at, node), s.cells, t.cells)
    && Frame(s.at, Nodes(s.at, node), s.mem, t.mem)
    && Blank(s.at, Nodes(s.at, node), t.mem)
    && Once(s.at, Nodes(s.at, node), freed)
  }

  lemma NothingDone(pool: PagePool, s: State, node: Node)
    requires node in s.at
    ensures Progress(pool, s, s, node, 0, [])
  {
    assert Done(s.at, node, 0) == {};
  }

  /** The tables below the entries before i + 1 are those before i and the subtree of entry i. */
  lemma DoneNext(at: Layout, node: Node, i: nat)
    requires Proper(at) && i < ENTRIES
    ensures Done(at, node, i + 1) ==
            if !node.Low? && Kid(node, i) in at then Done(at, node, i) + Nodes(at, Kid(node, i)) else Done(at, node, i)
    ensures !node.Low? ==> Done(at, node, i) !! Nodes(at, Kid(node, i)) && node !in Nodes(at, Kid(node, i))
  {
  }

  lemma DoneAll(at: Layout, node: Node)
    requires Proper(at) && node in at
    ensures Nodes(at, node) == Done(at, node, ENTRIES) + {node}
    ensures node !in Done(at, node, ENTRIES)
  {
  }

  lemma OtherAddress(at: Layout, nodes: set<Node>, x: Node)
    requires Proper(at) && x in at && x !in nodes
    ensures at[x] !in Addresses(at, nodes)
  {
  }

  lemma OtherIndex(pool: PagePool, cells: seq<Cell>, at: Layout, nodes: set<Node>, x: Node)
    requires Proper(at) && x in at && x !in nodes && pool.heapStart % PAGE_SIZE == 0
    requires pool.OnePage(cells, at[x])
    ensures Index(pool, at[x]) !in Indices(pool, at, nodes)
  {
    forall y | y in nodes && y in at
      ensures Index(pool, at[y]) != Index(pool, at[x])
    {
      if Index(pool, at[y]) == Index(pool, at[x]) {
        IndexInjective(pool, at[x], at[y]);
        assert false;
      }
    }
  }

  lemma CutTrans(pool: PagePool, at: Layout, a: set<Node>, b: set<Node>, c0: seq<Cell>, c1: seq<Cell>, c2: seq<Cell>)
    requires Cut(pool, at, a, c0, c1) && Cut(pool, at, b, c1, c2)
    ensures Cut(pool, at, a + b, c0, c2)
  {
    assert Indices(pool, at, a + b) == Indices(pool, at, a) + Indices(pool, at, b);
  }

  lemma FrameTrans(at: Layout, a: set<Node>, b: set<Node>, m0: Memory, m1: Memory, m2: Memory)
    requires Frame(at, a, m0, m1) && Frame(at, b, m1, m2)
    ensures Frame(at, a + b, m0, m2)
  {
    assert Addresses(at, a + b) == Addresses(at, a) + Addresses(at, b);
  }

  lemma BlankKept(at: Layout, a: set<Node>, b: set<Node>, mem: Memory, mem': Memory)
    requires Proper(at) && a !! b && Blank(at, a, mem) && Frame(at, b, mem, mem')
    ensures Blank(at, a, mem')
  {
    forall x | x in a && x in at
      ensures BlankUpTo(TableAt(mem', at[x]), ENTRIES)
    {
      OtherAddress(at, b, x);
    }
  }

  lemma OnceBoth(at: Layout, a: set<Node>, b: set<Node>, f: seq<nat>, g: seq<nat>)
    requires Proper(at) && a !! b && Once(at, a, f) && Once(at, b, g)
    ensures Once(at, a + b, f + g)
  {
    assert Addresses(at, a + b) == Addresses(at, a) + Addresses(at, b);
    forall x | x in a && x in at
      ensures at[x] !in Addresses(at, b)
    {
      OtherAddress(at, b, x);
    }
    assert Addresses(at, a) !! Addresses(at, b);
    assert multiset(f + g) == multiset(f) + multiset(g);
  }

  lemma LivePageKept(pool: PagePool, at: Layout, nodes: set<Node>, cells: seq<Cell>, cells': seq<Cell>, a: nat)
    requires Cut(pool, at, nodes, cells, cells') && pool.OnePage(cells, a)
              && Index(pool, a) !in Indices(pool, at, nodes)
    ensures pool.OnePage(cells', a)
  {
  }

  /** When entry i is reached, the subtree below it is still whole. */
  lemma KidReady(pool: PagePool, s: State, t: State, node: Node, i: nat, freed: seq<nat>)
    requires Subtree(pool, s, node) && Progress(pool, s, t, node, i, freed) && i < ENTRIES
    requires pool.heapStart % PAGE_SIZE == 0 && !node.Low? && Kid(node, i) in s.at
    ensures Subtree(pool, t, Kid(node, i))
  {
    hide Linked, Blank, Once, Addresses, Indices, Cut, Index;
    DoneNext(s.at, node, i);
    var done := Done(s.at, node, i);
    forall x | x in s.at && Under(x, Kid(node, i))
      ensures Linked(t.mem, t.at, x) && pool.OnePage(t.cells, t.at[x])
    {
      assert x in Nodes(s.at, Kid(node, i));
      OtherAddress(s.at, done + {node}, x);
      assert Linked(s.mem, s.at, x) && pool.OnePage(s.cells, s.at[x]);
      OtherIndex(pool, s.cells, s.at, done, x);
      LivePageKept(pool, s.at, done, s.cells, t.cells, s.at[x]);
      LinksKept(s.mem, t.mem, s.at, x);
    }
  }

  lemma LinksKept(mem: Memory, mem': Memory, at: Layout, x: Node)
    requires x in at && Linked(mem, at, x) && TableAt(mem', at[x]) == TableAt(mem, at[x])
    ensures Linked(mem', at, x)
  {
  }

  /** The entry mmu_free looks at still says what is below it. */
  lemma EntrySeen(pool: PagePool, s: State, t: State, node: Node, i: nat, freed: seq<nat>)
    requires Subtree(pool, s, node) && Progress(pool, s, t, node, i, freed) && i < ENTRIES
    ensures var e := TableAt(t.mem, s.at[node])[i];
            if node.Low? then !IsBranch(e)
            else (Kid(node, i) in s.at <==> IsBranch(e)) && (Kid(node, i) in s.at ==> Next(e) == s.at[Kid(node, i)])
  {
    hide IsValid, HasRwx, Next, Cut, Frame, Blank, Once;
    assert Linked(s.mem, s.at, node);
  }

  /** One more entry: the tables k below it are gone and the entry itself is cleared. */
  lemma EntryDone(pool: PagePool, s: State, t: State, u: State, mem': Memory, node: Node, i: nat, k: set<Node>,
      freed: seq<nat>, more: seq<nat>)
    requires Subtree(pool, s, node) && Progress(pool, s, t, node, i, freed) && i < ENTRIES
    requires k == if !node.Low? && Kid(node, i) in s.at then Nodes(s.at, Kid(node, i)) else {}
    requires u.at == s.at && Cut(pool, s.at, k, t.cells, u.cells) && Frame(s.at, k, t.mem, u.mem)
              && Blank(s.at, k, u.mem) && Once(s.at, k, more)
    requires forall a :: a != s.at[node] ==> TableAt(mem', a) == TableAt(u.mem, a)
    requires TableAt(mem', s.at[node]) == TableAt(u.mem, s.at[node])[i := TableAt(mem', s.at[node])[i]]
    requires !IsValid(TableAt(mem', s.at[node])[i])
    ensures Progress(pool, s, State(mem', u.cells, s.at), node, i + 1, freed + more)
  {
    hide IsValid, Under, Slot, Subtree, TableAt, Cut, Frame, Blank, Once;
    var done := Done(s.at, node, i);
    SubtreeProper(pool, s, node);
    DoneNext(s.at, node, i);
    NotDone(s.at, node, i);
    assert Done(s.at, node, i + 1) == done + k;
    hide Done, Nodes;
    CutTrans(pool, s.at, done, k, s.cells, t.cells, u.cells);
    EntryMemory(s.at, node, done, k, s.mem, t.mem, u.mem, mem');
    OnceBoth(s.at, done, k, freed, more);
  }

  lemma EntryMemory(at: Layout, node: Node, done: set<Node>, k: set<Node>, m0: Memory, m1: Memory, m2: Memory,
      m3: Memory)
    requires Proper(at) && node in at && node !in done && node !in k && done !! k
    requires Frame(at, done + {node}, m0, m1) && Frame(at, k, m1, m2)
    requires Blank(at, done, m1) && Blank(at, k, m2)
    requires forall a :: a != at[node] ==> TableAt(m3, a) == TableAt(m2, a)
    ensures Frame(at, done + k + {node}, m0, m3) && Blank(at, done + k, m3)
    ensures TableAt(m2, at[node]) == TableAt(m1, at[node])
  {
    hide TableAt, Proper, BlankUpTo;
    assert Addresses(at, {node}) == {at[node]};
    assert Frame(at, {node}, m2, m3);
    BlankKept(at, done, k, m1, m2);
    assert Blank(at, done + k, m2);
    BlankKept(at, done + k, {node}, m2, m3);
    OtherAddress(at, k, node);
    FrameTrans(at, done + {node}, k, m0, m1, m2);
    FrameTrans(at, done + {node} + k, {node}, m0, m2, m3);
    assert done + {node} + k + {node} == done + k + {node};
  }

  lemma SubtreeProper(pool: PagePool, s: State, node: Node)
    requires Subtree(pool, s, node)
    ensures Proper(s.at) && node in s.at
  {
  }

  lemma NotDone(at: Layout, node: Node, i: nat)
    ensures node !in Done(at, node, i)
  {
  }

  /** After the last entry the table's own page goes back. */
  lemma TableDone(pool: PagePool, s: State, t: State, cells': seq<Cell>, node: Node, freed: seq<nat>)
    requires Subtree(pool, s, node) && Progress(pool, s, t, node, ENTRIES, freed)
    requires 0 <= Index(pool, s.at[node]) < |t.cells| && cells' == t.cells[Index(pool, s.at[node]) := FREE]
    ensures Gone(pool, s, State(t.mem, cells', s.at), node, freed + [s.at[node]])
  {
    hide IsValid, Under, Slot, Subtree, TableAt;
    SubtreeProper(pool, s, node);
    DoneAll(s.at, node);
    var done := Done(s.at, node, ENTRIES);
    hide Done, Nodes;
    assert Indices(pool, s.at, {node}) == {Index(pool, s.at[node])};
    assert Cut(pool, s.at, {node}, t.cells, cells');
    CutTrans(pool, s.at, done, {node}, s.cells, t.cells, cells');
    assert Addresses(s.at, {node}) == {s.at[node]};
    OnceBoth(s.at, done, {node}, freed, [s.at[node]]);
  }

  /** The table whose entries are being cleared is still a live page itself. */
  lemma StillLive(pool: PagePool, s: State, t: State, node: Node, i: nat, freed: seq<nat>)
    requires Subtree(pool, s, node) && Progress(pool, s, t, node, i, freed) && pool.heapStart % PAGE_SIZE == 0
    ensures pool.OnePage(t.cells, s.at[node])
  {
    hide IsValid, Blank, Once, Frame, Linked;
    NotDone(s.at, node, i);
    assert Under(node, node);
    OtherIndex(pool, s.cells, s.at, Done(s.at, node, i), node);
  }

  lemma NothingGone(pool: PagePool, s: State)
    ensures Cut(pool, s.at, {}, s.cells, s.cells) && Frame(s.at, {}, s.mem, s.mem) && Blank(s.at, {}, s.mem)
              && Once(s.at, {}, [])
  {
  }

  lemma GoneParts(pool: PagePool, s: State, t: State, node: Node, freed: seq<nat>)
    requires Gone(pool, s, t, node, freed)
    ensures t.at == s.at && Cut(pool, s.at, Nodes(s.at, node), s.cells, t.cells)
    ensures Frame(s.at, Nodes(s.at, node), s.mem, t.mem) && Blank(s.at, Nodes(s.at, node), t.mem)
    ensures Once(s.at, Nodes(s.at, node), freed)
  {
  }

  /**
    mmu_free after a leaf was written over an entry: all pages of the tree there was before are
    free again if and only if the entry was no branch; the pages below a branch stay taken.
   */
  lemma PagesLostIff(pool: PagePool, t: State, u: State, level: nat, v: nat, mem': Memory, freed: seq<nat>)
    requires Sound(pool, t) && level < 3 && NodeAt(level, v) in t.at && pool.heapStart % PAGE_SIZE == 0
    requires Gone(pool, State(mem', t.cells, Prune(t.at, level, v)), u, Root, freed)
    ensures t.at[NodeAt(level, v)] in t.mem && |u.cells| == |t.cells|
    ensures forall x :: x in t.at ==>
              && 0 <= Index(pool, t.at[x]) < |u.cells|
              && u.cells[Index(pool, t.at[x])] == if Below(x, level, v) then LAST else FREE
    ensures (forall x :: x in t.at ==> 0 <= Index(pool, t.at[x]) < |u.cells| && u.cells[Index(pool, t.at[x])] == FREE)
            <==> !IsBranch(t.mem[t.at[NodeAt(level, v)]][VpnAt(level, v)])
  {
    hide IsBranch, TreeOk, Frame, Blank, Once, Below, NodeAt, VpnAt;
    TreeParts(t.mem, t.at);
    CutsOffIff(t.mem, t.at, level, v);
    var kept := Prune(t.at, level, v);
    forall x | x in t.at
      ensures 0 <= Index(pool, t.at[x]) < |u.cells|
      ensures u.cells[Index(pool, t.at[x])] == if Below(x, level, v) then LAST else FREE
    {
      assert pool.OnePage(t.cells, t.at[x]);
      if Below(x, level, v) {
        forall y | y in kept
          ensures Index(pool, kept[y]) != Index(pool, t.at[x])
        {
          if Index(pool, kept[y]) == Index(pool, t.at[x]) {
            IndexInjective(pool, t.at[x], t.at[y]);
            assert false;
          }
        }
      } else {
        assert x in kept && kept[x] == t.at[x] && x in Nodes(kept, Root);
      }
    }
    PruneKeepsAll(t.at, level, v);
  }

  lemma PruneKeepsAll(at: Layout, level: nat, v: nat)
    requires level < 3
    ensures Prune(at, level, v) == at <==> forall x :: x in at ==> !Below(x, level, v)
  {
    if Prune(at, level, v) == at {
      forall x | x in at
        ensures !Below(x, level, v)
      {
        assert x in Prune(at, level, v);
      }
    }
  }
}
