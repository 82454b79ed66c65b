/**
  How a table tree grows inside the page pool: what every table page mmu_map allocates keeps,
  and that a whole walk of such steps is one such step (src/mmu.c:37-59).
 */
module TableGrowth {
  import opened PageBits
  import opened PageCells
  import opened PageAllocator
  import opened PageTable
  import opened PageTree

  /** The table memory, the pool's cells and where the tree's tables lie. */
  datatype State = State(mem: Memory, cells: seq<Cell>, at: Layout)

  ghost function Index(pool: PagePool, a: nat): int {
    if a >= pool.heapStart then pool.IndexOf(a) else -1
  }

  /** Every table of the tree is a live page of the pool. */
  ghost predicate Backed(pool: PagePool, cells: seq<Cell>, at: Layout) {
    forall x :: x in at ==> pool.OnePage(cells, at[x])
  }

  ghost predicate Sound(pool: PagePool, s: State) {
    TreeOk(s.mem, s.at) && Backed(pool, s.cells, s.at) && pool.pages <= |s.cells|
  }

  ghost function NewPages(pool: PagePool, before: Layout, now: Layout): set<int> {
    set x | x in now && x !in before :: Index(pool, now[x])
  }

  /** Every old table stays where it is, and no other memory changes. */
  ghost predicate KeepsTables(s: State, t: State) {
    && (forall x :: x in s.at ==> x in t.at && t.at[x] == s.at[x])
    && (forall a :: a !in t.at.Values ==> TableAt(t.mem, a) == TableAt(s.mem, a))
  }

  /** The new tables, and only they, took pages, and these were free. */
  ghost predicate TakesPages(pool: PagePool, s: State, t: State) {
    && |t.cells| == |s.cells|
    && (forall k :: 0 <= k < |s.cells| ==>
         t.cells[k] == if k in NewPages(pool, s.at, t.at) then LAST else s.cells[k])
    && (forall k :: 0 <= k < |s.cells| && k in NewPages(pool, s.at, t.at) ==> s.cells[k] == FREE)
  }

  ghost predicate SameWalks(mem: Memory, mem': Memory, root: nat) {
    forall w :: Walk(mem', root, w) == Walk(mem, root, w)
  }

  /** Only empty tables were added: no translation changed. */
  ghost predicate Grew(pool: PagePool, s: State, t: State) {
    && Sound(pool, s) && Sound(pool, t) && KeepsTables(s, t) && TakesPages(pool, s, t)
    && SameWalks(s.mem, t.mem, s.at[Root])
    && FreeBelow(t.cells, pool.pages) + |t.at| == FreeBelow(s.cells, pool.pages) + |s.at|
  }

  lemma GrewNothing(pool: PagePool, s: State)
    requires Sound(pool, s)
    ensures Grew(pool, s, s)
  {
    hide TreeOk, FreeBelow, Walk;
  }

  lemma KeepsTrans(s: State, t: State, u: State)
    requires KeepsTables(s, t) && KeepsTables(t, u)
    ensures KeepsTables(s, u)
  {
    forall a | a in t.at.Values
      ensures a in u.at.Values
    {
      var x :| x in t.at && t.at[x] == a;
      assert u.at[x] == a;
    }
  }

  lemma TakesTrans(pool: PagePool, s: State, t: State, u: State)
    requires KeepsTables(s, t) && KeepsTables(t, u)
    requires TakesPages(pool, s, t) && TakesPages(pool, t, u)
    ensures TakesPages(pool, s, u)
  {
    var a, b, c := NewPages(pool, s.at, t.at), NewPages(pool, t.at, u.at), NewPages(pool, s.at, u.at);
    forall k
      ensures k in c <==> k in a || k in b
    {
      if k in a {
        var x :| x in t.at && x !in s.at && Index(pool, t.at[x]) == k;
        assert x in u.at && Index(pool, u.at[x]) == k;
      }
      if k in b {
        var x :| x in u.at && x !in t.at && Index(pool, u.at[x]) == k;
        assert x !in s.at;
      }
    }
  }

  lemma GrewTrans(pool: PagePool, s: State, t: State, u: State)
    requires Grew(pool, s, t) && Grew(pool, t, u)
    ensures Grew(pool, s, u)
  {
    hide TreeOk, FreeBelow, Walk, Backed, TakesPages;
    assert Root in s.at by { TreeParts(s.mem, s.at); }
    assert t.at[Root] == s.at[Root];
    KeepsTrans(s, t, u);
    TakesTrans(pool, s, t, u);
  }

  lemma {:induction false} OneLess(cells: seq<Cell>, i: nat, n: nat)
    requires i < |cells| && n <= |cells| && cells[i] == FREE
    ensures FreeBelow(cells[i := LAST], n) == FreeBelow(cells, n) - if i < n then 1 else 0
  {
    if n > 0 {
      OneLess(cells, i, n - 1);
    }
  }

  lemma IndexInjective(pool: PagePool, a: nat, b: nat)
    requires pool.heapStart % PAGE_SIZE == 0 && a >= pool.heapStart && b >= pool.heapStart
    requires pool.IndexOf(a) == pool.IndexOf(b) != -1
    ensures a == b
  {
  }

  lemma OneNewPage(pool: PagePool, at: Layout, node: Node, page: nat)
    requires node !in at
    ensures NewPages(pool, at, at[node := page]) == {Index(pool, page)}
  {
    assert at[node := page][node] == page;
  }

  /** Installing a table changes that table and its parent and keeps all others. */
  lemma InstalledKeeps(s: State, t: State, parent: Node, node: Node, page: nat)
    requires parent in s.at && node !in s.at && t.at == s.at[node := page]
    requires forall a :: a != s.at[parent] && a != page ==> TableAt(t.mem, a) == TableAt(s.mem, a)
    ensures KeepsTables(s, t)
  {
    assert t.at[node] == page && t.at[parent] == s.at[parent];
  }

  /** One table page: taken from the pool, cleared and hung into the tree. */
  lemma GrowByOne(pool: PagePool, s: State, level: nat, v: nat, page: nat, cells': seq<Cell>)
    requires Sound(pool, s) && 0 < level < 3 && NodeAt(level, v) in s.at && pool.heapStart % PAGE_SIZE == 0
    requires !IsValid(TableAt(s.mem, s.at[NodeAt(level, v)])[VpnAt(level, v)])
    requires page != 0 && page % PAGE == 0 && |cells'| == |s.cells| && pool.OnePage(cells', page)
    requires s.cells[pool.IndexOf(page)] == FREE && cells' == s.cells[pool.IndexOf(page) := LAST]
    ensures s.at[NodeAt(level, v)] in s.mem && NodeAt(level - 1, v) !in s.at
    ensures Grew(pool, s, State(Installed(s.mem, s.at[NodeAt(level, v)], level, v, page), cells',
                                s.at[NodeAt(level - 1, v) := page]))
  {
    hide TreeOk, FreeBelow, Walk, IsValid, BranchEntry, Next, KeepsTables, NewPages;
    var k := pool.IndexOf(page);
    forall x | x in s.at
      ensures s.at[x] != page && pool.OnePage(cells', s.at[x])
    {
      assert pool.OnePage(s.cells, s.at[x]);
    }
    Install(s.mem, s.at, level, v, page);
    var node := NodeAt(level - 1, v);
    var table := s.at[NodeAt(level, v)];
    var t := State(Installed(s.mem, table, level, v, page), cells', s.at[node := page]);
    OneNewPage(pool, s.at, node, page);
    InstalledKeeps(s, t, NodeAt(level, v), node, page);
    assert TakesPages(pool, s, t);
    OneLess(s.cells, k, pool.pages);
    assert |t.at| == |s.at| + 1;
  }

  /** How many tables the walk of v still lacks above the given level. */
  function Missing(at: Layout, level: nat, v: nat): nat
    requires level < 3
  {
    (if level < 2 && NodeAt(1, v) !in at then 1 else 0) + (if level < 1 && NodeAt(0, v) !in at then 1 else 0)
  }

  /** A leaf in the table that decides v at a level is what the walk finds. */
  lemma LeafOnWalk(mem: Memory, at: Layout, level: nat, v: nat)
    requires TreeOk(mem, at) && level < 3 && NodeAt(level, v) in at
    ensures IsLeaf(TableAt(mem, at[NodeAt(level, v)])[VpnAt(level, v)]) ==>
              Walk(mem, at[Root], v).Hit? && Walk(mem, at[Root], v).level == level
  {
    hide IsValid, HasRwx, Next, Walk, Vpn0, Vpn1, Vpn2, RootLinks, MidLinks, LowLeaves;
    IndexBounds(v);
    WalkInTree(mem, at, v);
    if level > 0 {
      EmptySlot(mem, at, level, v);
      NotBranch(mem[at[NodeAt(level, v)]][VpnAt(level, v)]);
    }
    if level == 2 && IsLeaf(mem[at[Root]][Vpn2(v)]) {
      assert Low(Vpn2(v), Vpn1(v)) !in at;
    }
  }

  /** The tables that were added lie on the walk of v, above or at the given level. */
  ghost predicate OnPath(at: Layout, grown: Layout, level: nat, v: nat) {
    forall x :: x in grown && x !in at ==> (level < 2 && x == NodeAt(1, v)) || (level < 1 && x == NodeAt(0, v))
  }
}
