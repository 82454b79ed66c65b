/**
  What adding one data zone does to a dense zone tree, case by case as the branches of
  alloc_new_zone write it (src/minix3.c:702-934).
 */
module ZoneGrowth {
  import opened BlockStore
  import opened ZoneTree

  /** view', zones' are view, zones with the nodes of `added` filled in and nothing else changed. */
  ghost predicate Fills(view: PointerView, zones: Zones, view': PointerView, zones': Zones, added: map<Node, U32>) {
    && zones'[ZONE_TINDIR] == zones[ZONE_TINDIR]
    && forall x: Node :: x.InRange() ==>
         NodeZone(view', zones', x) == if x in added then added[x] else NodeZone(view, zones, x)
  }

  /** The zones of `added` are new to the file and pairwise distinct. */
  ghost predicate AllNew(view: PointerView, zones: Zones, n: nat, added: map<Node, U32>) {
    && (forall x :: x in added ==> added[x] != 0)
    && (forall x, y :: x in added && y in added && x != y ==> added[x] != added[y])
    && (forall x, y: Node :: x in added && y.InRange() && y.Live(n) ==> NodeZone(view, zones, y) != added[x])
  }

  /** The nodes that come alive when the n-th data zone is added. */
  ghost predicate IsGrowth(n: nat, added: map<Node, U32>) {
    forall x: Node :: x.InRange() ==> (x in added <==> x.Live(n + 1) && !x.Live(n))
  }

  /** Filling exactly the nodes that come alive keeps the tree dense and duplicate-free. */
  lemma GrowTree(view: PointerView, zones: Zones, view': PointerView, zones': Zones, n: nat, added: map<Node, U32>)
    requires Tree(view, zones, n) && n < MAX_ZONES
    requires IsGrowth(n, added) && AllNew(view, zones, n, added)
    requires Fills(view, zones, view', zones', added)
    ensures Tree(view', zones', n + 1)
    ensures Data(n) in added
    ensures Flat(view', zones', n + 1) == Flat(view, zones, n) + [added[Data(n)]]
  {
    assert Data(n).InRange();
    forall p | 0 <= p < n + 1
      ensures Flat(view', zones', n + 1)[p] == (Flat(view, zones, n) + [added[Data(n)]])[p]
    {
      assert Data(p).InRange();
      assert NodeZone(view', zones', Data(p)) == Slot(view', zones', p);
      assert NodeZone(view, zones, Data(p)) == Slot(view, zones, p);
    }
    forall x: Node | x.InRange()
      ensures NodeZone(view', zones', x) != 0 <==> x.Live(n + 1)
    {
    }
  }

  function OnePointer(d: U32): Pointers {
    NoPointers()[0 := d]
  }

  lemma FillDirect(view: PointerView, zones: Zones, n: nat, d: U32)
    requires Tree(view, zones, n) && n < ZONE_INDIR
    ensures Fills(view, zones, view, zones[n := d], map[Data(n) := d])
    ensures IsGrowth(n, map[Data(n) := d])
  {
  }

  /** n == 7: a new single-indirect zone whose first pointer is the data zone. */
  lemma FillFirstSingle(view: PointerView, zones: Zones, s: U32, d: U32)
    requires Tree(view, zones, ZONE_INDIR) && s != 0
    ensures var added := map[Data(ZONE_INDIR) := d, Single := s];
            && Fills(view, zones, view[s := OnePointer(d)], zones[ZONE_INDIR := s], added)
            && IsGrowth(ZONE_INDIR, added)
  {
    var view', zones' := view[s := OnePointer(d)], zones[ZONE_INDIR := s];
    assert NodeZone(view, zones, Double) == 0 && NodeZone(view, zones, Single) == 0;
    forall x: Node | x.InRange()
      ensures NodeZone(view', zones', x) ==
              if x == Data(ZONE_INDIR) then d else if x == Single then s else NodeZone(view, zones, x)
    {
      if x.Data? && ZONE_INDIR <= x.pos < FIRST_DOUBLE {
        assert Row(view', s)[x.pos - ZONE_INDIR] == OnePointer(d)[x.pos - ZONE_INDIR];
      }
    }
  }

  /** 7 < n < 263: one more pointer in the single-indirect zone. */
  lemma FillSingle(view: PointerView, zones: Zones, n: nat, d: U32)
    requires Tree(view, zones, n) && ZONE_INDIR < n < FIRST_DOUBLE
    ensures var s := zones[ZONE_INDIR];
            var ptrs: Pointers := Row(view, s)[n - ZONE_INDIR := d];
            && Fills(view, zones, view[s := ptrs], zones, map[Data(n) := d])
            && IsGrowth(n, map[Data(n) := d])
  {
    var s := zones[ZONE_INDIR];
    var ptrs: Pointers := Row(view, s)[n - ZONE_INDIR := d];
    var view' := view[s := ptrs];
    assert NodeZone(view, zones, Single) != 0 && NodeZone(view, zones, Double) == 0;
    forall x: Node | x.InRange()
      ensures NodeZone(view', zones, x) == if x == Data(n) then d else NodeZone(view, zones, x)
    {
      if x.Data? && ZONE_INDIR <= x.pos < FIRST_DOUBLE {
        assert Row(view', s)[x.pos - ZONE_INDIR] == ptrs[x.pos - ZONE_INDIR];
      }
    }
  }

  /** n == 263: a new double-indirect zone, its first leaf, and the data zone in it. */
  lemma FillFirstDouble(view: PointerView, zones: Zones, s: U32, l: U32, d: U32)
    requires Tree(view, zones, FIRST_DOUBLE)
    requires s != 0 && l != 0 && s != l && s != zones[ZONE_INDIR] && l != zones[ZONE_INDIR]
    ensures var added := map[Data(FIRST_DOUBLE) := d, Double := s, Leaf(0) := l];
            var view' := view[s := OnePointer(l)][l := OnePointer(d)];
            && Fills(view, zones, view', zones[ZONE_DINDIR := s], added)
            && IsGrowth(FIRST_DOUBLE, added)
  {
    var view' := view[s := OnePointer(l)][l := OnePointer(d)];
    var zones' := zones[ZONE_DINDIR := s];
    assert NodeZone(view, zones, Double) == 0 && NodeZone(view, zones, Single) != 0;
    forall j: nat | j < NUM_POINTERS
      ensures LeafZone(view', zones', j) == if j == 0 then l else 0
    {
      assert Row(view', s)[j] == OnePointer(l)[j];
    }
    forall x: Node | x.InRange()
      ensures NodeZone(view', zones', x) ==
              if x == Data(FIRST_DOUBLE) then d else if x == Double then s
              else if x == Leaf(0) then l else NodeZone(view, zones, x)
    {
      if x.Data? && FIRST_DOUBLE <= x.pos {
        var k := (x.pos - FIRST_DOUBLE) % NUM_POINTERS;
        assert Row(view', l)[k] == OnePointer(d)[k];
      }
    }
  }

  /** A full last leaf: a new leaf in row j, holding the data zone. */
  lemma FillNewLeaf(view: PointerView, zones: Zones, j: nat, l: U32, d: U32)
    requires 0 < j < NUM_POINTERS && Tree(view, zones, FIRST_DOUBLE + NUM_POINTERS * j)
    requires l != 0
    requires forall x: Node :: x.InRange() && x.Live(FIRST_DOUBLE + NUM_POINTERS * j) ==> NodeZone(view, zones, x) != l
    ensures var n := FIRST_DOUBLE + NUM_POINTERS * j;
            var added := map[Data(n) := d, Leaf(j) := l];
            var s := zones[ZONE_DINDIR];
            var ptrs: Pointers := Row(view, s)[j := l];
            && Fills(view, zones, view[s := ptrs][l := OnePointer(d)], zones, added)
            && IsGrowth(n, added)
  {
    var n := FIRST_DOUBLE + NUM_POINTERS * j;
    var s := zones[ZONE_DINDIR];
    var ptrs: Pointers := Row(view, s)[j := l];
    var view' := view[s := ptrs][l := OnePointer(d)];
    assert NodeZone(view, zones, Double) == s && NodeZone(view, zones, Single) == zones[ZONE_INDIR];
    forall i: nat | i < NUM_POINTERS
      ensures LeafZone(view', zones, i) == if i == j then l else LeafZone(view, zones, i)
    {
      assert Row(view', s)[i] == ptrs[i];
    }
    forall x: Node | x.InRange()
      ensures NodeZone(view', zones, x) ==
              if x == Data(n) then d else if x == Leaf(j) then l else NodeZone(view, zones, x)
    {
      if x.Data? && FIRST_DOUBLE <= x.pos {
        var i, k := (x.pos - FIRST_DOUBLE) / NUM_POINTERS, (x.pos - FIRST_DOUBLE) % NUM_POINTERS;
        assert NodeZone(view, zones, Leaf(i)) == LeafZone(view, zones, i);
        assert Leaf(i).Live(n) <==> i < j;
        assert Row(view', l)[k] == OnePointer(d)[k];
      }
    }
  }

  /** One more pointer in the last leaf. */
  lemma FillLeaf(view: PointerView, zones: Zones, n: nat, d: U32)
    requires Tree(view, zones, n) && FIRST_DOUBLE < n < MAX_ZONES
    requires (n - FIRST_DOUBLE) % NUM_POINTERS != 0
    ensures var l := LeafZone(view, zones, (n - FIRST_DOUBLE) / NUM_POINTERS);
            var ptrs: Pointers := Row(view, l)[(n - FIRST_DOUBLE) % NUM_POINTERS := d];
            && Fills(view, zones, view[l := ptrs], zones, map[Data(n) := d])
            && IsGrowth(n, map[Data(n) := d])
  {
    var j := (n - FIRST_DOUBLE) / NUM_POINTERS;
    var l := LeafZone(view, zones, j);
    var ptrs: Pointers := Row(view, l)[(n - FIRST_DOUBLE) % NUM_POINTERS := d];
    var view' := view[l := ptrs];
    assert NodeZone(view, zones, Leaf(j)) == l && Leaf(j).Live(n);
    assert NodeZone(view, zones, Double) != l && NodeZone(view, zones, Single) != l;
    forall x: Node | x.InRange()
      ensures NodeZone(view', zones, x) == if x == Data(n) then d else NodeZone(view, zones, x)
    {
      if x.Data? && FIRST_DOUBLE <= x.pos {
        var i, k := (x.pos - FIRST_DOUBLE) / NUM_POINTERS, (x.pos - FIRST_DOUBLE) % NUM_POINTERS;
        assert NodeZone(view, zones, Leaf(i)) == LeafZone(view, zones, i);
        assert Row(view', l)[k] == ptrs[k];
      }
    }
  }

  /** Every zone of the file is marked used. */
  ghost predicate Owned(view: PointerView, zones: Zones, n: nat, used: set<nat>) {
    forall x: Node :: x.InRange() && x.Live(n) ==> NodeZone(view, zones, x) in used
  }

  /** `added` are distinct zones that were free before and are used now, and no zone became free. */
  ghost predicate Claimed(before: set<nat>, after: set<nat>, added: map<Node, U32>) {
    && before <= after
    && (forall x :: x in added ==> added[x] != 0 && added[x] !in before && added[x] in after)
    && (forall x, y :: x in added && y in added && x != y ==> added[x] != added[y])
  }

  /** Claiming free zones for the nodes that come alive keeps every file invariant. */
  lemma GrowOwned(view: PointerView, zones: Zones, view': PointerView, zones': Zones, n: nat,
                  before: set<nat>, after: set<nat>, added: map<Node, U32>)
    requires Tree(view, zones, n) && n < MAX_ZONES && Owned(view, zones, n, before)
    requires IsGrowth(n, added) && Claimed(before, after, added)
    requires Fills(view, zones, view', zones', added)
    ensures Tree(view', zones', n + 1) && Owned(view', zones', n + 1, after)
    ensures forall z: nat :: Holds(view', zones', n + 1, z) ==> Holds(view, zones, n, z) || z in after - before
    ensures Data(n) in added
    ensures Flat(view', zones', n + 1) == Flat(view, zones, n) + [added[Data(n)]]
  {
    assert AllNew(view, zones, n, added);
    GrowTree(view, zones, view', zones', n, added);
  }

  /** How many zones adding the n-th data zone takes: itself and the pointer zones that come alive. */
  function Needed(n: nat): nat {
    1 + (if n == ZONE_INDIR then 1 else 0)
      + (if n == FIRST_DOUBLE then 1 else 0)
      + (if FIRST_DOUBLE <= n && (n - FIRST_DOUBLE) % NUM_POINTERS == 0 then 1 else 0)
  }

  /** view', zones' hold the file of view, zones with data zone d appended, on the used zones used'. */
  ghost predicate Grown(view: PointerView, zones: Zones, n: nat, used: set<nat>,
                        view': PointerView, zones': Zones, used': set<nat>, d: U32)
  {
    && n < MAX_ZONES
    && Tree(view', zones', n + 1) && Owned(view', zones', n + 1, used')
    && Flat(view', zones', n + 1) == Flat(view, zones, n) + [d]
    && forall z: nat :: Holds(view', zones', n + 1, z) ==> Holds(view, zones, n, z) || z in used' - used
  }

  ghost predicate Ready(view: PointerView, zones: Zones, n: nat, used: set<nat>, d: U32) {
    Tree(view, zones, n) && Owned(view, zones, n, used) && n < MAX_ZONES && d != 0 && d !in used
  }

  lemma GrowDirect(view: PointerView, zones: Zones, n: nat, used: set<nat>, d: U32)
    requires Ready(view, zones, n, used, d) && n < ZONE_INDIR
    ensures Grown(view, zones, n, used, view, zones[n := d], used + {d}, d)
  {
    FillDirect(view, zones, n, d);
    GrowOwned(view, zones, view, zones[n := d], n, used, used + {d}, map[Data(n) := d]);
  }

  lemma GrowFirstSingle(view: PointerView, zones: Zones, used: set<nat>, d: U32, s: U32)
    requires Ready(view, zones, ZONE_INDIR, used, d) && s != 0 && s !in used && s != d
    ensures Grown(view, zones, ZONE_INDIR, used, view[s := OnePointer(d)], zones[ZONE_INDIR := s], used + {d, s}, d)
  {
    FillFirstSingle(view, zones, s, d);
    GrowOwned(view, zones, view[s := OnePointer(d)], zones[ZONE_INDIR := s], ZONE_INDIR, used, used + {d, s},
              map[Data(ZONE_INDIR) := d, Single := s]);
  }

  lemma GrowSingle(view: PointerView, zones: Zones, n: nat, used: set<nat>, d: U32)
    requires Ready(view, zones, n, used, d) && ZONE_INDIR < n < FIRST_DOUBLE
    ensures var s := zones[ZONE_INDIR];
            && PointerZone(view, zones, n, s)
            && Grown(view, zones, n, used, view[s := Row(view, s)[n - ZONE_INDIR := d]], zones, used + {d}, d)
  {
    var s := zones[ZONE_INDIR];
    assert NodeZone(view, zones, Single) == s;
    FillSingle(view, zones, n, d);
    GrowOwned(view, zones, view[s := Row(view, s)[n - ZONE_INDIR := d]], zones, n, used, used + {d}, map[Data(n) := d]);
  }

  lemma GrowFirstDouble(view: PointerView, zones: Zones, used: set<nat>, d: U32, s: U32, l: U32)
    requires Ready(view, zones, FIRST_DOUBLE, used, d)
    requires s != 0 && l != 0 && s !in used && l !in used && s != d && l != d && s != l
    ensures Grown(view, zones, FIRST_DOUBLE, used, view[s := OnePointer(l)][l := OnePointer(d)],
                  zones[ZONE_DINDIR := s], used + {d, s, l}, d)
  {
    assert NodeZone(view, zones, Single) == zones[ZONE_INDIR];
    hide Slot, LeafZone, Row;
    FillFirstDouble(view, zones, s, l, d);
    GrowOwned(view, zones, view[s := OnePointer(l)][l := OnePointer(d)], zones[ZONE_DINDIR := s], FIRST_DOUBLE,
              used, used + {d, s, l}, map[Data(FIRST_DOUBLE) := d, Double := s, Leaf(0) := l]);
  }

  lemma GrowNewLeaf(view: PointerView, zones: Zones, n: nat, used: set<nat>, d: U32, l: U32)
    requires Ready(view, zones, n, used, d) && FIRST_DOUBLE < n && (n - FIRST_DOUBLE) % NUM_POINTERS == 0
    requires l != 0 && l !in used && l != d
    ensures var s := zones[ZONE_DINDIR];
            var j := (n - FIRST_DOUBLE) / NUM_POINTERS;
            && PointerZone(view, zones, n, s) && l != s
            && Grown(view, zones, n, used, view[s := Row(view, s)[j := l]][l := OnePointer(d)], zones, used + {d, l}, d)
  {
    var s := zones[ZONE_DINDIR];
    var j := (n - FIRST_DOUBLE) / NUM_POINTERS;
    assert NodeZone(view, zones, Double) == s;
    FillNewLeaf(view, zones, j, l, d);
    GrowOwned(view, zones, view[s := Row(view, s)[j := l]][l := OnePointer(d)], zones, n, used, used + {d, l},
              map[Data(n) := d, Leaf(j) := l]);
  }

  lemma GrowLeaf(view: PointerView, zones: Zones, n: nat, used: set<nat>, d: U32)
    requires Ready(view, zones, n, used, d) && FIRST_DOUBLE < n && (n - FIRST_DOUBLE) % NUM_POINTERS != 0
    ensures zones[ZONE_DINDIR] != 0
    ensures var l := LeafZone(view, zones, (n - FIRST_DOUBLE) / NUM_POINTERS);
            var k := (n - FIRST_DOUBLE) % NUM_POINTERS;
            && PointerZone(view, zones, n, l)
            && Grown(view, zones, n, used, view[l := Row(view, l)[k := d]], zones, used + {d}, d)
  {
    var j, k := (n - FIRST_DOUBLE) / NUM_POINTERS, (n - FIRST_DOUBLE) % NUM_POINTERS;
    var l := LeafZone(view, zones, j);
    assert NodeZone(view, zones, Double) == zones[ZONE_DINDIR];
    assert NodeZone(view, zones, Leaf(j)) == l;
    FillLeaf(view, zones, n, d);
    GrowOwned(view, zones, view[l := Row(view, l)[k := d]], zones, n, used, used + {d}, map[Data(n) := d]);
  }
}
