/**
  A page table's whole life: mmu_table_create, any mmu_map calls that never swap a branch for a
  leaf or a leaf for a branch, mmu_free (src/mmu.c:16-101).
 */
module TableLifetime {
  import opened PageBits
  import opened PageCells
  import opened PageAllocator
  import opened PageTable
  import opened PageTree
  import opened TableGrowth
  import opened TableRelease
  import opened MapMeaning
  import opened Mmu

  datatype Request = Request(v: nat, p: nat, level: nat, bits: nat) {
    /** The arguments mmu_map accepts. */
    predicate Effective() {
      level < 3 && HasRwx(bits)
    }

    /** x is the root or a table this request needs on its way. */
    predicate Leads(x: Node) {
      match x
      case Root => true
      case Mid(i) => level < 2 && i == Vpn2(v)
      case Low(i, j) => level == 0 && i == Vpn2(v) && j == Vpn1(v)
    }
  }

  /** No request maps a page inside a larger page that another one maps. */
  ghost predicate Compatible(rs: seq<Request>) {
    forall i, j ::
      0 <= i < |rs| && 0 <= j < |rs| && rs[i].Effective() && rs[j].Effective() && rs[i].level > rs[j].level ==>
        !SamePage(rs[i].v, rs[j].v, rs[i].level)
  }

  ghost predicate NodeAsked(rs: seq<Request>, n: nat, x: Node) {
    exists k :: 0 <= k < n && k < |rs| && rs[k].Effective() && rs[k].Leads(x)
  }

  ghost predicate HitAsked(rs: seq<Request>, n: nat, level: nat, w: nat)
    requires level < 3
  {
    exists k :: 0 <= k < n && k < |rs| && rs[k].Effective() && rs[k].level == level && SamePage(rs[k].v, w, level)
  }

  /** Every table and every leaf of the tree was asked for by one of the first n requests. */
  ghost predicate Explained(rs: seq<Request>, n: nat, mem: Memory, at: Layout)
    requires Root in at
  {
    && (forall x :: x in at ==> x == Root || NodeAsked(rs, n, x))
    && (forall w :: var h := Walk(mem, at[Root], w); h.Hit? ==> HitAsked(rs, n, h.level, w))
  }

  /** The next request finds no larger page on its walk ... */
  lemma NoLargerPage(rs: seq<Request>, n: nat, mem: Memory, at: Layout)
    requires n < |rs| && Compatible(rs) && Root in at && Explained(rs, n, mem, at)
    ensures rs[n].Effective() && Walk(mem, at[Root], rs[n].v).Hit? ==> Walk(mem, at[Root], rs[n].v).level <= rs[n].level
  {
    hide Walk, SamePage, HasRwx;
    var r := rs[n];
    var h := Walk(mem, at[Root], r.v);
    if r.Effective() && h.Hit? {
      WalkLevel(mem, at[Root], r.v);
      var k :| 0 <= k < n && k < |rs| && rs[k].Effective() && rs[k].level == h.level && SamePage(rs[k].v, r.v, h.level);
    }
  }

  lemma WalkLevel(mem: Memory, root: nat, w: nat)
    ensures Walk(mem, root, w).Hit? ==> Walk(mem, root, w).level < 3
  {
  }

  /** ... and cuts off no table. */
  lemma NothingCutOff(rs: seq<Request>, n: nat, at: Layout, grown: Layout)
    requires n < |rs| && Compatible(rs) && rs[n].Effective()
    requires forall x :: x in at ==> x == Root || NodeAsked(rs, n, x)
    requires OnPath(at, grown, rs[n].level, rs[n].v)
    ensures Prune(grown, rs[n].level, rs[n].v) == grown
  {
    hide Vpn0, Vpn1, Vpn2, SamePage, HasRwx;
    var r := rs[n];
    forall x | x in grown
      ensures !Below(x, r.level, r.v)
    {
      if x in at && x != Root {
        var k :| 0 <= k < n && rs[k].Effective() && rs[k].Leads(x);
        SamePageIndices(r.v, rs[k].v, r.level);
      }
    }
  }

  lemma StillExplained(rs: seq<Request>, n: nat, mem: Memory, mem': Memory, at: Layout, grown: Layout)
    requires n < |rs| && Root in at && Root in grown && grown[Root] == at[Root] && Explained(rs, n, mem, at)
    requires rs[n].Effective() ==> OnPath(at, grown, rs[n].level, rs[n].v)
    requires !rs[n].Effective() ==> grown == at
    requires SameWalks(mem, mem', at[Root])
             || (rs[n].Effective() && Maps(mem, mem', at[Root], rs[n].v, rs[n].p, rs[n].level, rs[n].bits))
    ensures Explained(rs, n + 1, mem', grown)
  {
    hide Walk, SamePage, HasRwx, LeafEntry, Vpn0, Vpn1, Vpn2;
    forall x | x in grown && x != Root
      ensures NodeAsked(rs, n + 1, x)
    {
      if x in at {
        var k :| 0 <= k < n && k < |rs| && rs[k].Effective() && rs[k].Leads(x);
      } else {
        assert rs[n].Leads(x);
      }
    }
    forall w | Walk(mem', at[Root], w).Hit?
      ensures Walk(mem', at[Root], w).level < 3 && HitAsked(rs, n + 1, Walk(mem', at[Root], w).level, w)
    {
      var h, h' := Walk(mem, at[Root], w), Walk(mem', at[Root], w);
      WalkLevel(mem, at[Root], w);
      WalkLevel(mem', at[Root], w);
      if h' == h {
        var k :| 0 <= k < n && k < |rs| && rs[k].Effective() && rs[k].level == h.level && SamePage(rs[k].v, w, h.level);
      } else {
        assert rs[n].Effective() && rs[n].level == h'.level && SamePage(rs[n].v, w, h'.level);
      }
    }
  }

  /** Since s the tree's tables, and nothing else, took pages and changed table memory. */
  ghost predicate Accounted(pool: PagePool, s: State, t: State) {
    s.at == map[] && KeepsTables(s, t) && TakesPages(pool, s, t)
  }

  lemma AccountedNext(pool: PagePool, s: State, t: State, u: State)
    requires Accounted(pool, s, t) && KeepsTables(t, u) && TakesPages(pool, t, u)
    ensures Accounted(pool, s, u)
  {
    KeepsTrans(s, t, u);
    TakesTrans(pool, s, t, u);
  }

  /** One mmu_map call of a compatible list of requests. */
  method MapOne(tables: PageTables, tab: nat, rs: seq<Request>, n: nat, ghost s: State, ghost at: Layout)
    returns (ghost at': Layout)
    requires n < |rs| && Compatible(rs)
    requires tab != 0 && tables.Rooted(tab, at) && Root in at && Explained(rs, n, tables.mem, at)
    requires Accounted(tables.pool, s, tables.Now(at))
    modifies tables`mem, tables.pool.book
    ensures tables.Rooted(tab, at') && Root in at' && Explained(rs, n + 1, tables.mem, at')
    ensures Accounted(tables.pool, s, tables.Now(at'))
  {
    hide Sound, Grew, Accounted, Compatible, Explained, Cells, ChunksOk, Walk;
    hide HasRwx, Prune, NodeAt, FreeBelow, Missing, KeepsTables, TakesPages;
    var r := rs[n];
    NoLargerPage(rs, n, tables.mem, at);
    ghost var t := tables.Now(at);
    var ok;
    ok, at' := tables.Map(tab, r.v, r.p, r.level, r.bits, at);
    if ok {
      ExplainedNodes(rs, n, t.mem, at);
      NothingCutOff(rs, n, at, at');
      RootKept(t, tables.Now(at'));
    } else {
      GrewParts(tables.pool, t, tables.Now(at'));
    }
    StillExplained(rs, n, t.mem, tables.mem, at, at');
    AccountedNext(tables.pool, s, t, tables.Now(at'));
  }

  lemma ExplainedNodes(rs: seq<Request>, n: nat, mem: Memory, at: Layout)
    requires Root in at && Explained(rs, n, mem, at)
    ensures forall x :: x in at ==> x == Root || NodeAsked(rs, n, x)
  {
  }

  lemma GrewParts(pool: PagePool, s: State, t: State)
    requires Grew(pool, s, t)
    ensures KeepsTables(s, t) && TakesPages(pool, s, t) && Root in s.at && SameWalks(s.mem, t.mem, s.at[Root])
    ensures Root in t.at && t.at[Root] == s.at[Root]
  {
    hide Walk, FreeBelow;
  }

  lemma RootKept(s: State, t: State)
    requires KeepsTables(s, t) && Root in s.at
    ensures Root in t.at && t.at[Root] == s.at[Root]
  {
  }

  /** A fresh table: an empty tree of one page that was free. */
  lemma FirstTable(pool: PagePool, mem: Memory, cells: seq<Cell>, cells': seq<Cell>, tab: nat, rs: seq<Request>)
    requires tab != 0 && tab % PAGE == 0 && |cells'| == |cells| && pool.OnePage(cells', tab)
    requires cells[pool.IndexOf(tab)] == FREE && cells' == cells[pool.IndexOf(tab) := LAST]
    ensures var at := map[Root := tab];
            var t := State(mem[tab := ZeroTable()], cells', at);
            && Sound(pool, t) && Explained(rs, 0, t.mem, at) && Accounted(pool, State(mem, cells, map[]), t)
  {
    ZeroEntries();
    var at := map[Root := tab];
    var t := State(mem[tab := ZeroTable()], cells', at);
    assert Index(pool, at[Root]) in NewPages(pool, map[], at);
    assert NewPages(pool, map[], at) == {Index(pool, tab)};
    hide IsValid, HasRwx;
    forall w
      ensures Walk(t.mem, tab, w) == Miss
    {
      IndexBounds(w);
      assert !IsValid(TableAt(t.mem, tab)[Vpn2(w)]);
    }
  }

  /** mmu_free gives back exactly what was taken since s. */
  lemma AllReturned(pool: PagePool, s: State, t: State, u: State, freed: seq<nat>)
    requires Accounted(pool, s, t) && Gone(pool, t, u, Root, freed)
    ensures u.cells == s.cells && Once(t.at, Nodes(t.at, Root), freed)
    ensures Nodes(t.at, Root) == t.at.Keys
    ensures forall a :: a !in t.at.Values ==> TableAt(u.mem, a) == TableAt(s.mem, a)
  {
    assert Nodes(t.at, Root) == t.at.Keys;
    assert Indices(pool, t.at, t.at.Keys) == NewPages(pool, s.at, t.at);
    assert Addresses(t.at, t.at.Keys) == t.at.Values;
  }

  /**
    Creating a table, mapping any compatible requests (whether or not they succeed) and freeing
    the table leaves the page bookkeeping as it was, byte for byte.
   */
  method Lifetime(tables: PageTables, rs: seq<Request>) returns (ghost at: Layout, ghost freed: seq<nat>)
    requires tables.pool.Ok() && Compatible(rs)
    modifies tables`mem, tables.pool.book
    ensures tables.pool.Ok() && tables.pool.book[..] == old(tables.pool.book[..])
    ensures multiset(freed) == multiset(at.Values)
    ensures forall a :: a !in at.Values ==> TableAt(tables.mem, a) == TableAt(old(tables.mem), a)
  {
    hide Sound, Accounted, Compatible, Explained, Cells, ChunksOk, Gone, Subtree, FreeBelow;
    ghost var s := State(tables.mem, tables.pool.View(), map[]);
    ghost var book := tables.pool.book[..];
    at, freed := map[], [];
    var tab := tables.NewTable();
    if tab != 0 {
      FirstTable(tables.pool, s.mem, s.cells, tables.pool.View(), tab, rs);
      at := map[Root := tab];
      for i := 0 to |rs|
        invariant tables.Rooted(tab, at) && Root in at && Explained(rs, i, tables.mem, at)
        invariant Accounted(tables.pool, s, tables.Now(at))
      {
        at := MapOne(tables, tab, rs, i, s, at);
      }
      WholeTree(tables.pool, tables.Now(at));
      ghost var t := tables.Now(at);
      freed := tables.FreeTable(tab, Root, at);
      AllReturned(tables.pool, s, t, tables.Now(at), freed);
      OnceAll(at, freed);
    }
    CellsDecide(tables.pool.book[..], book);
  }

  lemma OnceAll(at: Layout, freed: seq<nat>)
    requires Once(at, at.Keys, freed)
    ensures multiset(freed) == multiset(at.Values)
  {
    assert Addresses(at, at.Keys) == at.Values;
  }

  /** The tree of one table and the table below its entry for v. */
  lemma TwoTables(s: State, t: State, at: Layout, v: nat)
    requires s.at.Keys == {Root} && KeepsTables(s, t) && OnPath(s.at, t.at, 1, v) && NodeAt(1, v) in t.at
    ensures t.at.Keys == {Root, NodeAt(1, v)} && Prune(t.at, 1, v) == t.at
  {
  }

  lemma OneTableLeft(s: State, t: State, v: nat)
    requires s.at.Keys == {Root, NodeAt(1, v)} && KeepsTables(s, t) && OnPath(s.at, t.at, 2, v)
    ensures t.at == s.at && Prune(t.at, 2, v).Keys == {Root}
  {
  }

  /** After mmu_free of the root alone, the page of the other table is still taken. */
  lemma OneLost(pool: PagePool, s: State, t: State, u: State, v: nat, freed: seq<nat>)
    requires Accounted(pool, s, t) && t.at.Keys == {Root, NodeAt(1, v)} && Backed(pool, t.cells, t.at)
    requires t.at[Root] != t.at[NodeAt(1, v)] && pool.heapStart % PAGE_SIZE == 0
    requires u.at.Keys == {Root} && u.at[Root] == t.at[Root]
    requires Cut(pool, u.at, Nodes(u.at, Root), t.cells, u.cells)
    ensures var k := Index(pool, t.at[NodeAt(1, v)]);
            0 <= k < |s.cells| && s.cells[k] == FREE && u.cells == s.cells[k := LAST]
  {
    hide NodeAt, KeepsTables, Backed, Index;
    var node := NodeAt(1, v);
    TwoPages(pool, t.cells, t.at, node);
    IndicesOfTwo(pool, t.at, node);
    IndicesOfRoot(pool, u.at);
    hide Nodes, Indices, NewPages;
    OneStays(s.cells, t.cells, u.cells, Index(pool, t.at[Root]), Index(pool, t.at[node]));
  }

  lemma TwoPages(pool: PagePool, cells: seq<Cell>, at: Layout, node: Node)
    requires at.Keys == {Root, node} && Backed(pool, cells, at) && pool.heapStart % PAGE_SIZE == 0
    requires at[Root] != at[node]
    ensures 0 <= Index(pool, at[Root]) < |cells| && 0 <= Index(pool, at[node]) < |cells|
    ensures Index(pool, at[Root]) != Index(pool, at[node])
  {
    assert pool.OnePage(cells, at[Root]) && pool.OnePage(cells, at[node]);
    if Index(pool, at[Root]) == Index(pool, at[node]) {
      IndexInjective(pool, at[Root], at[node]);
      assert false;
    }
  }

  lemma OneStays(s: seq<Cell>, t: seq<Cell>, u: seq<Cell>, root: nat, mid: nat)
    requires |s| == |t| == |u| && root < |s| && mid < |s| && root != mid && s[root] == s[mid] == FREE
    requires forall k :: 0 <= k < |s| ==> t[k] == if k == root || k == mid then LAST else s[k]
    requires forall k :: 0 <= k < |s| ==> u[k] == if k == root then FREE else t[k]
    ensures u == s[mid := LAST]
  {
  }

  lemma IndicesOfRoot(pool: PagePool, at: Layout)
    requires at.Keys == {Root}
    ensures Indices(pool, at, Nodes(at, Root)) == {Index(pool, at[Root])}
  {
    assert Root in at && Root in Nodes(at, Root);
    assert Index(pool, at[Root]) in Indices(pool, at, Nodes(at, Root));
  }

  lemma IndicesOfTwo(pool: PagePool, at: Layout, node: Node)
    requires at.Keys == {Root, node}
    ensures NewPages(pool, map[], at) == {Index(pool, at[Root]), Index(pool, at[node])}
  {
    assert Root in at && node in at;
    assert Index(pool, at[Root]) in NewPages(pool, map[], at) && Index(pool, at[node]) in NewPages(pool, map[], at);
  }

  /** A table whose entry for v leads to one other table, both on pages that were free in s. */
  method TwoLevelTree(tables: PageTables, v: nat, ghost s: State) returns (tab: nat, ghost at: Layout)
    requires tables.pool.Ok() && FreeBelow(tables.pool.View(), tables.pool.pages) >= 2
    requires s == State(tables.mem, tables.pool.View(), map[])
    modifies tables`mem, tables.pool.book
    ensures tab != 0 && tables.Rooted(tab, at) && at.Keys == {Root, NodeAt(1, v)}
    ensures Accounted(tables.pool, s, tables.Now(at))
  {
    hide Sound, Grew, Accounted, Cells, ChunksOk, Walk, HasRwx, FreeBelow, KeepsTables, TakesPages, Maps;
    tab := tables.NewTable();
    FirstTable(tables.pool, s.mem, s.cells, tables.pool.View(), tab, []);
    at := map[Root := tab];
    ghost var t := tables.Now(at);
    OneLess(s.cells, tables.pool.IndexOf(tab), tables.pool.pages);
    EmptyTree([], t.mem, at, v);
    Readable();
    var ok;
    ok, at := tables.Map(tab, v, 0, 1, 2, at);
    TwoTables(t, tables.Now(at), at, v);
    AccountedNext(tables.pool, s, t, tables.Now(at));
  }

  /**
    What goes wrong where a leaf replaces a branch: from any pool with two free pages, a table
    for a 2 MiB page and then a 1 GiB page over it, freed again, lose one page for good.
   */
  method LeakOne(tables: PageTables, v: nat) returns (ghost lost: nat)
    requires tables.pool.Ok() && FreeBelow(tables.pool.View(), tables.pool.pages) >= 2
    modifies tables`mem, tables.pool.book
    ensures tables.pool.Ok() && lost < |old(tables.pool.View())| && old(tables.pool.View())[lost] == FREE
    ensures tables.pool.View() == old(tables.pool.View())[lost := LAST]
  {
    hide Sound, Grew, Accounted, Cells, ChunksOk, Walk, HasRwx, FreeBelow, KeepsTables, TakesPages, Maps, Gone, Subtree;
    ghost var s := State(tables.mem, tables.pool.View(), map[]);
    var tab;
    ghost var at;
    tab, at := TwoLevelTree(tables, v, s);
    ghost var t := tables.Now(at);
    Readable();
    var ok;
    ghost var grown;
    ok, grown := tables.Map(tab, v, 0, 2, 2, at);
    OneTableLeft(t, tables.Now(grown), v);
    SamePages(tables.pool, t, tables.Now(grown));
    at := Prune(grown, 2, v);
    WholeTree(tables.pool, tables.Now(at));
    ghost var m := tables.Now(at);
    ghost var freed := tables.FreeTable(tab, Root, at);
    GoneParts(tables.pool, m, tables.Now(at), Root, freed);
    TreeApart(tables.pool, t, NodeAt(1, v));
    OneLost(tables.pool, s, t, tables.Now(at), v, freed);
    lost := Index(tables.pool, t.at[NodeAt(1, v)]);
  }

  lemma SamePages(pool: PagePool, s: State, t: State)
    requires TakesPages(pool, s, t) && t.at == s.at
    ensures t.cells == s.cells
  {
    assert NewPages(pool, s.at, t.at) == {};
  }

  lemma TreeApart(pool: PagePool, s: State, node: Node)
    requires Sound(pool, s) && node in s.at && node != Root
    ensures Backed(pool, s.cells, s.at) && Root in s.at && s.at[Root] != s.at[node]
  {
    TreeParts(s.mem, s.at);
  }

  lemma Readable()
    ensures HasRwx(2)
  {
  }

  lemma EmptyTree(rs: seq<Request>, mem: Memory, at: Layout, v: nat)
    requires Root in at && Explained(rs, 0, mem, at)
    ensures Walk(mem, at[Root], v) == Miss
  {
    hide Walk;
  }
}
