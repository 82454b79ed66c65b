/**
  A page-table tree in memory: which tables it has, that no two share a page, and what
  installing a table or writing a leaf does to every translation.
 */
module PageTree {
  import opened PageTable

  /** A table of the tree: the root, the table of root entry i, or the table of entry j of that one. */
  datatype Node = Root | Mid(i: nat) | Low(i: nat, j: nat) {
    predicate InRange() {
      match this
      case Root => true
      case Mid(i) => i < ENTRIES
      case Low(i, j) => i < ENTRIES && j < ENTRIES
    }
  }

  /** Where each table of the tree lies. */
  type Layout = map<Node, nat>

  ghost predicate Placed(mem: Memory, at: Layout) {
    && Root in at
    && (forall x :: x in at ==> x.InRange() && at[x] in mem && at[x] != 0 && at[x] % PAGE == 0)
    && (forall x, y :: x in at && y in at && x != y ==> at[x] != at[y])
  }

  /** The branch entries of a table and the tables below it match. */
  ghost predicate RootLinks(mem: Memory, at: Layout)
    requires Placed(mem, at)
  {
    forall i {:trigger mem[at[Root]][i]} {:trigger Mid(i)} :: 0 <= i < ENTRIES ==>
      && (Mid(i) in at <==> IsBranch(mem[at[Root]][i]))
      && (Mid(i) in at ==> Next(mem[at[Root]][i]) == at[Mid(i)])
  }

  ghost predicate MidLinks(mem: Memory, at: Layout, i: nat)
    requires Placed(mem, at) && Mid(i) in at
  {
    forall j {:trigger mem[at[Mid(i)]][j]} {:trigger Low(i, j)} :: 0 <= j < ENTRIES ==>
      && (Low(i, j) in at <==> IsBranch(mem[at[Mid(i)]][j]))
      && (Low(i, j) in at ==> Next(mem[at[Mid(i)]][j]) == at[Low(i, j)])
  }

  ghost predicate LowLeaves(mem: Memory, at: Layout, i: nat, j: nat)
    requires Placed(mem, at) && Low(i, j) in at
  {
    forall k :: 0 <= k < ENTRIES ==> !IsBranch(mem[at[Low(i, j)]][k])
  }

  ghost predicate TreeOk(mem: Memory, at: Layout) {
    && Placed(mem, at) && RootLinks(mem, at)
    && (forall i :: Mid(i) in at ==> MidLinks(mem, at, i))
    && (forall i, j :: Low(i, j) in at ==> Mid(i) in at && LowLeaves(mem, at, i, j))
  }

  /** The walk of v through a tree whose tables are known. */
  lemma WalkInTree(mem: Memory, at: Layout, v: nat)
    requires TreeOk(mem, at)
    ensures var i, j, k := Vpn2(v), Vpn1(v), Vpn0(v);
            var w := Walk(mem, at[Root], v);
            var e2 := mem[at[Root]][i];
            && (Mid(i) !in at ==> w == if IsLeaf(e2) then Hit(2, e2) else Miss)
            && (Mid(i) in at && Low(i, j) !in at ==>
                  var e1 := mem[at[Mid(i)]][j]; w == if IsLeaf(e1) then Hit(1, e1) else Miss)
            && (Low(i, j) in at ==>
                  var e0 := mem[at[Low(i, j)]][k]; w == if IsLeaf(e0) then Hit(0, e0) else Miss)
  {
    hide Vpn0, Vpn1, Vpn2, Next, IsValid, HasRwx;
    IndexBounds(v);
    var i, j := Vpn2(v), Vpn1(v);
    if Mid(i) in at {
      assert MidLinks(mem, at, i);
      if Low(i, j) in at {
        assert LowLeaves(mem, at, i, j);
      }
    }
  }

  /** An entry written into one table. */
  function Write(mem: Memory, table: nat, i: nat, e: nat): Memory
    requires table in mem && i < ENTRIES
  {
    mem[table := mem[table][i := e]]
  }

  /** mmu_map hangs a new, empty table under root entry i (src/mmu.c:46-55). */
  lemma InstallMid(mem: Memory, at: Layout, i: nat, page: nat)
    requires TreeOk(mem, at) && i < ENTRIES && !IsValid(mem[at[Root]][i])
    requires page != 0 && page % PAGE == 0 && forall x :: x in at ==> at[x] != page
    ensures var mem' := Write(mem[page := ZeroTable()], at[Root], i, BranchEntry(page));
            TreeOk(mem', at[Mid(i) := page])
  {
    hide IsValid, HasRwx, BranchEntry, Next;
    BranchFields(page);
    ZeroEntries();
    var root := at[Root];
    var mem', at' := Write(mem[page := ZeroTable()], root, i, BranchEntry(page)), at[Mid(i) := page];
    assert Mid(i) !in at by { NotBranch(mem[root][i]); }
    assert forall x :: x in at && x != Root ==> mem'[at[x]] == mem[at[x]];
    assert Placed(mem', at');
    forall l | Mid(l) in at'
      ensures MidLinks(mem', at', l)
    {
      if l != i {
        assert MidLinks(mem, at, l);
      } else {
        forall j | 0 <= j < ENTRIES
          ensures Low(i, j) !in at' && !IsBranch(mem'[page][j])
        {
          assert Low(i, j) in at ==> Mid(i) in at;
        }
      }
    }
    forall l, j | Low(l, j) in at'
      ensures Mid(l) in at' && LowLeaves(mem', at', l, j)
    {
      assert LowLeaves(mem, at, l, j);
    }
  }

  lemma NotBranch(e: nat)
    ensures !IsValid(e) ==> !IsBranch(e)
    ensures IsLeaf(e) ==> !IsBranch(e)
  {
  }

  lemma ZeroEntries()
    ensures !IsValid(0) && !IsBranch(0) && !IsLeaf(0)
  {
  }

  /** ... or under entry j of the table of root entry i. */
  lemma InstallLow(mem: Memory, at: Layout, i: nat, j: nat, page: nat)
    requires TreeOk(mem, at) && Mid(i) in at && j < ENTRIES && !IsValid(mem[at[Mid(i)]][j])
    requires page != 0 && page % PAGE == 0 && forall x :: x in at ==> at[x] != page
    ensures var mem' := Write(mem[page := ZeroTable()], at[Mid(i)], j, BranchEntry(page));
            TreeOk(mem', at[Low(i, j) := page])
  {
    hide IsValid, HasRwx, BranchEntry, Next;
    BranchFields(page);
    ZeroEntries();
    var table := at[Mid(i)];
    var mem', at' := Write(mem[page := ZeroTable()], table, j, BranchEntry(page)), at[Low(i, j) := page];
    assert MidLinks(mem, at, i);
    assert Low(i, j) !in at by { NotBranch(mem[table][j]); }
    assert forall x :: x in at && x != Mid(i) ==> mem'[at[x]] == mem[at[x]];
    assert Placed(mem', at');
    forall l | Mid(l) in at'
      ensures MidLinks(mem', at', l)
    {
      assert MidLinks(mem, at, l);
    }
    forall l, m | Low(l, m) in at'
      ensures Mid(l) in at' && LowLeaves(mem', at', l, m)
    {
      if l != i || m != j {
        assert LowLeaves(mem, at, l, m);
      }
    }
  }

  /** A new empty table changes no translation: what faulted still faults. */
  lemma InstallMidWalk(mem: Memory, at: Layout, i: nat, page: nat, v: nat)
    requires TreeOk(mem, at) && i < ENTRIES && !IsValid(mem[at[Root]][i])
    requires page != 0 && page % PAGE == 0 && forall x :: x in at ==> at[x] != page
    ensures var mem' := Write(mem[page := ZeroTable()], at[Root], i, BranchEntry(page));
            Walk(mem', at[Root], v) == Walk(mem, at[Root], v)
  {
    hide IsValid, HasRwx, BranchEntry, Next, Walk, TreeOk, Vpn0, Vpn1, Vpn2;
    TreeParts(mem, at);
    var root := at[Root];
    var mem', at' := Write(mem[page := ZeroTable()], root, i, BranchEntry(page)), at[Mid(i) := page];
    IndexBounds(v);
    NotBranch(mem[root][i]);
    ZeroEntries();
    InstallMid(mem, at, i, page);
    TreeParts(mem', at');
    WalkInTree(mem, at, v);
    WalkInTree(mem', at', v);
    InvalidIsNoLeaf(mem[root][i]);
    assert forall x :: x in at && x != Root ==> mem'[at[x]] == mem[at[x]];
    assert Low(i, Vpn1(v)) in at ==> Mid(i) in at;
  }

  lemma InvalidIsNoLeaf(e: nat)
    ensures !IsValid(e) ==> !IsLeaf(e)
  {
  }

  lemma TreeParts(mem: Memory, at: Layout)
    requires TreeOk(mem, at)
    ensures Placed(mem, at) && RootLinks(mem, at)
    ensures forall i :: Mid(i) in at ==> MidLinks(mem, at, i)
    ensures forall i, j :: Low(i, j) in at ==> Mid(i) in at && LowLeaves(mem, at, i, j)
  {
  }

  lemma InstallLowWalk(mem: Memory, at: Layout, i: nat, j: nat, page: nat, v: nat)
    requires TreeOk(mem, at) && Mid(i) in at && j < ENTRIES && !IsValid(mem[at[Mid(i)]][j])
    requires page != 0 && page % PAGE == 0 && forall x :: x in at ==> at[x] != page
    ensures var mem' := Write(mem[page := ZeroTable()], at[Mid(i)], j, BranchEntry(page));
            Walk(mem', at[Root], v) == Walk(mem, at[Root], v)
  {
    hide IsValid, HasRwx, BranchEntry, Next, Walk, TreeOk, Vpn0, Vpn1, Vpn2;
    TreeParts(mem, at);
    var table := at[Mid(i)];
    var mem', at' := Write(mem[page := ZeroTable()], table, j, BranchEntry(page)), at[Low(i, j) := page];
    IndexBounds(v);
    NotBranch(mem[table][j]);
    ZeroEntries();
    InstallLow(mem, at, i, j, page);
    TreeParts(mem', at');
    WalkInTree(mem, at, v);
    WalkInTree(mem', at', v);
    InvalidIsNoLeaf(mem[table][j]);
    assert MidLinks(mem, at, i);
    assert forall x :: x in at && x != Mid(i) ==> mem'[at[x]] == mem[at[x]];
  }

  /** The table whose entry decides v at the given level, and the tables a leaf written there cuts off. */
  function NodeAt(level: nat, v: nat): Node
    requires level < 3
  {
    match level
    case 2 => Root
    case 1 => Mid(Vpn2(v))
    case 0 => Low(Vpn2(v), Vpn1(v))
  }

  predicate Below(x: Node, level: nat, v: nat)
    requires level < 3
  {
    match level
    case 2 => (x.Mid? || x.Low?) && x.i == Vpn2(v)
    case 1 => x == Low(Vpn2(v), Vpn1(v))
    case 0 => false
  }

  function Prune(at: Layout, level: nat, v: nat): Layout
    requires level < 3
  {
    map x | x in at && !Below(x, level, v) :: at[x]
  }

  /** What the new leaf leaves of the layout, and of the memory. */
  lemma PutLeafPlaced(mem: Memory, at: Layout, level: nat, v: nat, e: nat)
    requires TreeOk(mem, at) && level < 3 && NodeAt(level, v) in at
    ensures at[NodeAt(level, v)] in mem
    ensures var mem' := Write(mem, at[NodeAt(level, v)], VpnAt(level, v), e);
            && Placed(mem', at) && Placed(mem', Prune(at, level, v))
            && (forall x :: x in at && x != NodeAt(level, v) ==> mem'[at[x]] == mem[at[x]])
  {
    hide Vpn0, Vpn1, Vpn2, RootLinks, MidLinks, LowLeaves;
  }

  lemma PutLeafMids(mem: Memory, at: Layout, level: nat, v: nat, e: nat, l: nat)
    requires TreeOk(mem, at) && level < 3 && NodeAt(level, v) in at && IsLeaf(e)
    requires at[NodeAt(level, v)] in mem
    requires Mid(l) in Prune(at, level, v)
    requires Placed(Write(mem, at[NodeAt(level, v)], VpnAt(level, v), e), Prune(at, level, v))
    ensures MidLinks(Write(mem, at[NodeAt(level, v)], VpnAt(level, v), e), Prune(at, level, v), l)
  {
    hide IsValid, HasRwx, Next, Vpn0, Vpn1, Vpn2, TreeOk, RootLinks, LowLeaves;
    TreeParts(mem, at);
    NotBranch(e);
    IndexBounds(v);
    assert MidLinks(mem, at, l);
    var mem' := Write(mem, at[NodeAt(level, v)], VpnAt(level, v), e);
    PutLeafPlaced(mem, at, level, v, e);
    assert Mid(l) != NodeAt(level, v) ==> mem'[at[Mid(l)]] == mem[at[Mid(l)]];
  }

  lemma PutLeafOk(mem: Memory, at: Layout, level: nat, v: nat, e: nat)
    requires TreeOk(mem, at) && level < 3 && NodeAt(level, v) in at && IsLeaf(e)
    ensures at[NodeAt(level, v)] in mem
    ensures TreeOk(Write(mem, at[NodeAt(level, v)], VpnAt(level, v), e), Prune(at, level, v))
  {
    hide IsValid, HasRwx, Next, Vpn0, Vpn1, Vpn2, MidLinks;
    NotBranch(e);
    IndexBounds(v);
    PutLeafPlaced(mem, at, level, v, e);
    var node := NodeAt(level, v);
    var mem', at' := Write(mem, at[node], VpnAt(level, v), e), Prune(at, level, v);
    forall l | Mid(l) in at'
      ensures MidLinks(mem', at', l)
    {
      PutLeafMids(mem, at, level, v, e, l);
    }
    forall l, m | Low(l, m) in at'
      ensures Mid(l) in at' && LowLeaves(mem', at', l, m)
    {
      assert LowLeaves(mem, at, l, m);
    }
  }

  /** Exactly the addresses of the mapped page get the new leaf. */
  lemma PutLeafWalk(mem: Memory, at: Layout, level: nat, v: nat, e: nat, w: nat)
    requires TreeOk(mem, at) && level < 3 && NodeAt(level, v) in at && IsLeaf(e)
    requires at[NodeAt(level, v)] in mem
    ensures Walk(Write(mem, at[NodeAt(level, v)], VpnAt(level, v), e), at[Root], w)
            == if SamePage(v, w, level) then Hit(level, e) else Walk(mem, at[Root], w)
  {
    hide IsValid, HasRwx, Next, Walk, TreeOk, Vpn0, Vpn1, Vpn2, SamePage;
    TreeParts(mem, at);
    var node := NodeAt(level, v);
    var mem', at' := Write(mem, at[node], VpnAt(level, v), e), Prune(at, level, v);
    IndexBounds(v);
    IndexBounds(w);
    PutLeafOk(mem, at, level, v, e);
    TreeParts(mem', at');
    SamePageIndices(v, w, level);
    WalkInTree(mem, at, w);
    WalkInTree(mem', at', w);
    assert forall x :: x in at && x != node ==> mem'[at[x]] == mem[at[x]];
  }

  /** mmu_map hangs a new, empty table under the entry for v of a table of the walk. */
  function Installed(mem: Memory, table: nat, level: nat, v: nat, page: nat): Memory
    requires level < 3 && table in mem
  {
    Write(mem[page := ZeroTable()], table, VpnAt(level, v), BranchEntry(page))
  }

  lemma Install(mem: Memory, at: Layout, level: nat, v: nat, page: nat)
    requires TreeOk(mem, at) && 0 < level < 3 && NodeAt(level, v) in at
    requires !IsValid(TableAt(mem, at[NodeAt(level, v)])[VpnAt(level, v)])
    requires page != 0 && page % PAGE == 0 && page !in at.Values
    ensures at[NodeAt(level, v)] in mem
    ensures TreeOk(Installed(mem, at[NodeAt(level, v)], level, v, page), at[NodeAt(level - 1, v) := page])
    ensures NodeAt(level - 1, v) !in at
    ensures forall w :: Walk(Installed(mem, at[NodeAt(level, v)], level, v, page), at[Root], w)
              == Walk(mem, at[Root], w)
  {
    hide IsValid, HasRwx, Next, Walk, Vpn0, Vpn1, Vpn2, BranchEntry, RootLinks, MidLinks, LowLeaves;
    IndexBounds(v);
    var i, j := Vpn2(v), Vpn1(v);
    assert at[NodeAt(level, v)] in mem;
    if level == 2 {
      InstallMid(mem, at, i, page);
      EmptySlot(mem, at, 2, v);
      forall w ensures Walk(Installed(mem, at[Root], 2, v, page), at[Root], w) == Walk(mem, at[Root], w) {
        InstallMidWalk(mem, at, i, page, w);
      }
    } else {
      InstallLow(mem, at, i, j, page);
      EmptySlot(mem, at, 1, v);
      forall w ensures Walk(Installed(mem, at[Mid(i)], 1, v, page), at[Root], w) == Walk(mem, at[Root], w) {
        InstallLowWalk(mem, at, i, j, page, w);
      }
    }
  }

  /** The entry for v and the table below it. */
  lemma EmptySlot(mem: Memory, at: Layout, level: nat, v: nat)
    requires TreeOk(mem, at) && 0 < level < 3 && NodeAt(level, v) in at
    ensures at[NodeAt(level, v)] in mem
    ensures var e := mem[at[NodeAt(level, v)]][VpnAt(level, v)];
            && (NodeAt(level - 1, v) in at <==> IsBranch(e))
            && (NodeAt(level - 1, v) in at ==> Next(e) == at[NodeAt(level - 1, v)])
  {
    hide IsValid, HasRwx, Next, Vpn0, Vpn1, Vpn2;
    IndexBounds(v);
    if level == 1 {
      assert MidLinks(mem, at, Vpn2(v));
    }
  }

  /** A leaf cuts tables off, whose pages mmu_free then never finds, exactly if it replaces a branch. */
  lemma CutsOffIff(mem: Memory, at: Layout, level: nat, v: nat)
    requires TreeOk(mem, at) && level < 3 && NodeAt(level, v) in at
    ensures at[NodeAt(level, v)] in mem
    ensures Prune(at, level, v) != at <==> IsBranch(mem[at[NodeAt(level, v)]][VpnAt(level, v)])
  {
    hide IsValid, HasRwx, Next, Vpn0, Vpn1, Vpn2;
    IndexBounds(v);
    if level > 0 {
      EmptySlot(mem, at, level, v);
      var below := NodeAt(level - 1, v);
      assert Below(below, level, v);
      if below !in at {
        assert forall x :: x in at ==> !Below(x, level, v);
      }
    } else {
      assert LowLeaves(mem, at, Vpn2(v), Vpn1(v));
    }
  }
}
