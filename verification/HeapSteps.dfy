/**
  How the steps of free and alloc_block (src/kmalloc.c:125-200) keep the heap invariant,
  and what the invariant says about the heap.
 */
module HeapSteps {
  import opened Arithmetic
  import opened HeapLists
  import opened HeapShape

  /** The same ranges; only links may differ. */
  ghost predicate SameExtents(t: Table, t': Table) {
    && |t'| == |t|
    && forall x :: 0 <= x < |t| ==> t'[x].addr == t[x].addr && t'[x].size == t[x].size
  }

  lemma ExtentsDecide(t: Table, t': Table, tiles: seq<int>, base: nat, top: nat, s: seq<int>, k: nat)
    requires SameExtents(t, t')
    ensures Tiles(t, tiles, base, top) ==> Tiles(t', tiles, base, top)
    ensures Ascending(t, s) ==> Ascending(t', s)
    ensures Apart(t, s, k) ==> Apart(t', s, k)
  {
  }

  /** Two different tiles: the one with the lower address ends before the other begins. */
  lemma TileOrder(t: Table, tiles: seq<int>, base: nat, top: nat, x: int, y: int)
    requires Tiles(t, tiles, base, top) && x in tiles && y in tiles && x != y
    ensures t[x].addr != t[y].addr
    ensures t[x].addr < t[y].addr ==> t[x].End() <= t[y].addr
  {
    var i, j := Position(tiles, x), Position(tiles, y);
    if i < j {
      TilesAscend(t, tiles, base, top, i, j);
    } else {
      TilesAscend(t, tiles, base, top, j, i);
    }
  }

  function Inserted(s: seq<int>, at: nat, b: int): seq<int>
    requires at <= |s|
  {
    s[..at] + [b] + s[at..]
  }

  /** Position at is where insert_block puts b: before the first block whose address is not below b's. */
  ghost predicate InPlace(t: Table, s: seq<int>, at: nat, b: int) {
    && at <= |s| && 0 <= b < |t| && InTable(t, s)
    && (forall j :: 0 <= j < at ==> t[s[j]].addr < t[b].addr)
    && (at < |s| ==> t[b].addr <= t[s[at]].addr)
  }

  /** Where insert_block puts b keeps the list in address order. */
  lemma InsertAscending(t: Table, tiles: seq<int>, base: nat, top: nat, s: seq<int>, at: nat, b: int)
    requires Tiles(t, tiles, base, top) && Ascending(t, s) && at <= |s|
    requires b in tiles && b !in s && forall x :: x in s ==> x in tiles
    requires InPlace(t, s, at, b)
    ensures Ascending(t, Inserted(s, at, b))
  {
    var r := Inserted(s, at, b);
    forall j | 0 <= j < |s|
      ensures 0 <= s[j] < |t| && 0 <= b < |t|
      ensures j < at ==> t[s[j]].End() <= t[b].addr
      ensures at <= j ==> t[b].End() <= t[s[j]].addr
    {
      assert s[j] in s;
      TileOrder(t, tiles, base, top, b, s[j]);
      TileOrder(t, tiles, base, top, s[j], b);
      if at < j { assert t[s[at]].End() <= t[s[j]].addr; }
    }
    forall i, j | 0 <= i < j < |r|
      ensures 0 <= r[i] < |t| && 0 <= r[j] < |t| && t[r[i]].End() <= t[r[j]].addr
    {
      var i', j' := if i < at then i else i - 1, if j < at then j else j - 1;
      if i != at && j != at { assert t[s[i']].End() <= t[s[j']].addr; }
    }
  }

  lemma InsertedElements(s: seq<int>, at: nat, b: int)
    requires at <= |s|
    ensures |Inserted(s, at, b)| == |s| + 1
    ensures forall x :: x in Inserted(s, at, b) <==> x in s || x == b
    ensures NoDup(s) && b !in s ==> NoDup(Inserted(s, at, b))
  {
    assert s == s[..at] + s[at..];
    if NoDup(s) && b !in s {
      InsertedNoDup(s, at, b);
    }
  }

  lemma InsertedNoDup(s: seq<int>, at: nat, b: int)
    requires at <= |s| && NoDup(s) && b !in s
    ensures NoDup(Inserted(s, at, b))
  {
    var r := Inserted(s, at, b);
    assert forall k :: 0 <= k < |s| ==> s[k] in s;
    forall i, j | 0 <= i < j < |r|
      ensures r[i] != r[j]
    {
      assert i != at ==> r[i] == s[if i < at then i else i - 1];
      assert j != at ==> r[j] == s[if j < at then j else j - 1];
    }
  }

  function Removed(s: seq<int>, i: nat): seq<int>
    requires i < |s|
  {
    s[..i] + s[i + 1..]
  }

  lemma RemovedElements(s: seq<int>, i: nat)
    requires i < |s| && NoDup(s)
    ensures |Removed(s, i)| == |s| - 1 && NoDup(Removed(s, i))
    ensures forall x :: x in Removed(s, i) <==> x in s && x != s[i]
  {
    var r := Removed(s, i);
    forall x | x in s && x != s[i]
      ensures x in r
    {
      var k := Position(s, x);
      assert r[if k < i then k else k - 1] == x;
    }
  }

  lemma RemovedAscending(t: Table, s: seq<int>, i: nat)
    requires Ascending(t, s) && i < |s|
    ensures Ascending(t, Removed(s, i))
    ensures Apart(t, s, |s|) && (forall j :: 0 <= j < |s| ==> t[s[j]].size > 0) ==> Apart(t, Removed(s, i), |s| - 1)
  {
    var r := Removed(s, i);
    forall k, l | 0 <= k < l < |r|
      ensures 0 <= r[k] < |t| && 0 <= r[l] < |t| && t[r[k]].End() <= t[r[l]].addr
    {
      var k', l' := if k < i then k else k + 1, if l < i then l else l + 1;
      assert t[s[k']].End() <= t[s[l']].addr;
    }
    if Apart(t, s, |s|) && forall j :: 0 <= j < |s| ==> t[s[j]].size > 0 {
      forall k, l | 0 <= k && l == k + 1 && l < |r|
        ensures t[r[k]].End() != t[r[l]].addr
      {
        var k', l' := if k < i then k else k + 1, if l < i then l else l + 1;
        if l' != k' + 1 {
          assert t[s[k']].End() <= t[s[i]].addr && t[s[i]].End() <= t[s[l']].addr;
        }
      }
    }
  }

  /** The facts of a valid shape that the steps below use by name. */
  lemma LooseParts(s: Shape)
    requires s.Loose()
    ensures Chain(s.t, s.free, s.freeList) && Chain(s.t, s.used, s.usedList) && Chain(s.t, s.blank, s.blankList)
    ensures Partition(s.freeList, s.usedList, s.blankList, |s.t|)
    ensures InTable(s.t, s.freeList) && InTable(s.t, s.usedList) && InTable(s.t, s.blankList)
    ensures NULL !in s.freeList && NULL !in s.usedList && NULL !in s.blankList
    ensures Tiles(s.t, s.tiles, s.base, s.top) && s.base % ALIGNMENT == 0 && s.top <= s.limit
    ensures forall x :: x in s.tiles <==> x in s.freeList || x in s.usedList
    ensures Ascending(s.t, s.freeList)
  {
  }

  lemma PartsLoose(s: Shape)
    requires Chain(s.t, s.free, s.freeList) && Chain(s.t, s.used, s.usedList) && Chain(s.t, s.blank, s.blankList)
    requires Partition(s.freeList, s.usedList, s.blankList, |s.t|)
    requires Tiles(s.t, s.tiles, s.base, s.top) && s.base % ALIGNMENT == 0 && s.top <= s.limit
    requires forall x :: x in s.tiles <==> x in s.freeList || x in s.usedList
    requires Ascending(s.t, s.freeList)
    ensures s.Loose()
    ensures Apart(s.t, s.freeList, |s.freeList|) ==> s.Valid()
  {
  }

  lemma RelinkExtents(t: Table, i: int, next: int)
    ensures SameExtents(t, Relink(t, i, next))
  {
  }

  lemma ExtentsCompose(t: Table, t': Table, t'': Table)
    requires SameExtents(t, t') && SameExtents(t', t'')
    ensures SameExtents(t, t'')
  {
  }

  lemma RelinkFrame(t: Table, head: int, s: seq<int>, i: int, next: int)
    requires Chain(t, head, s) && i !in s
    ensures Chain(Relink(t, i, next), head, s)
  {
    assert forall k :: 0 <= k < |s| ==> s[k] in s;
    FrameChain(t, Relink(t, i, next), head, s);
  }

  lemma BeforeElement(s: seq<int>, i: nat)
    requires i <= |s|
    ensures Before(s, i) == NULL || Before(s, i) in s
  {
  }

  /** The partition when one used descriptor becomes free. */
  lemma MovePartition(free: seq<int>, used: seq<int>, blank: seq<int>, n: nat, i: nat, at: nat)
    requires Partition(free, used, blank, n) && i < |used| && at <= |free|
    ensures Partition(Inserted(free, at, used[i]), Removed(used, i), blank, n)
    ensures forall x :: (x in free || x in used <==> x in Inserted(free, at, used[i]) || x in Removed(used, i))
  {
    assert used[i] in used;
    assert used[i] !in free;
    RemovedElements(used, i);
    InsertedElements(free, at, used[i]);
  }

  /** free: block usedList[i] goes to its place in the free list (src/kmalloc.c:131-137). */
  lemma FreeStep(s: Shape, i: nat, at: nat, free': int)
    requires s.Loose() && i < |s.usedList| && InPlace(s.t, s.freeList, at, s.usedList[i])
    requires var b := s.usedList[i];
             var t1 := Relink(s.t, Before(s.usedList, i), Link(s.usedList, i + 1));
             var t2 := Relink(Relink(t1, Before(s.freeList, at), b), b, Link(s.freeList, at));
             Chain(t2, free', Inserted(s.freeList, at, b))
    ensures var b := s.usedList[i];
            var t1 := Relink(s.t, Before(s.usedList, i), Link(s.usedList, i + 1));
            var t2 := Relink(Relink(t1, Before(s.freeList, at), b), b, Link(s.freeList, at));
            && SameExtents(s.t, t2)
            && (forall x :: x in Removed(s.usedList, i) ==> 0 <= x < |s.t|)
            && s.(t := t2, free := free', used := if i == 0 then Link(s.usedList, 1) else s.used,
                  freeList := Inserted(s.freeList, at, b), usedList := Removed(s.usedList, i)).Loose()
  {
    hide Chain, Tiles, Ascending, NoDup, Inserted, Removed, Partition, Relink, SameExtents, Shape.Loose;
    LooseParts(s);
    var F, U, R := s.freeList, s.usedList, s.blankList;
    var b := U[i];
    var t1 := Relink(s.t, Before(U, i), Link(U, i + 1));
    var t1' := Relink(t1, Before(F, at), b);
    var t2 := Relink(t1', b, Link(F, at));
    RelinkExtents(s.t, Before(U, i), Link(U, i + 1));
    RelinkExtents(t1, Before(F, at), b);
    RelinkExtents(t1', b, Link(F, at));
    ExtentsCompose(s.t, t1, t1');
    ExtentsCompose(s.t, t1', t2);
    ExtentsDecide(s.t, t2, s.tiles, s.base, s.top, Inserted(F, at, b), 0);
    PartitionNoDup(F, U, R, |s.t|);
    RemovedIs(U, i);
    UnlinkChain(s.t, s.used, U, i);
    OutsideLists(s, i, at);
    RelinkFrame(t1, if i == 0 then Link(U, 1) else s.used, Removed(U, i), Before(F, at), b);
    RelinkFrame(t1', if i == 0 then Link(U, 1) else s.used, Removed(U, i), b, Link(F, at));
    RelinkFrame(s.t, s.blank, R, Before(U, i), Link(U, i + 1));
    RelinkFrame(t1, s.blank, R, Before(F, at), b);
    RelinkFrame(t1', s.blank, R, b, Link(F, at));
    MovePartition(F, U, R, |s.t|, i, at);
    InsertAscending(s.t, s.tiles, s.base, s.top, F, at, b);
    SameLength(s.t, t2);
    PartsLoose(s.(t := t2, free := free', used := if i == 0 then Link(U, 1) else s.used,
                  freeList := Inserted(F, at, b), usedList := Removed(U, i)));
  }

  lemma SameLength(t: Table, t': Table)
    requires SameExtents(t, t')
    ensures |t| == |t'|
  {
  }

  lemma RemovedIs(s: seq<int>, i: nat)
    requires i < |s|
    ensures Removed(s, i) == s[..i] + s[i + 1..]
  {
  }

  /** The descriptors free rewrites lie in none of the lists whose chains must survive. */
  lemma OutsideLists(s: Shape, i: nat, at: nat)
    requires s.Loose() && i < |s.usedList| && at <= |s.freeList|
    ensures var b := s.usedList[i];
            && b in s.usedList && b in s.tiles && b !in s.freeList && b !in s.blankList && b !in Removed(s.usedList, i)
            && Before(s.freeList, at) !in Removed(s.usedList, i) && Before(s.freeList, at) !in s.blankList
            && Before(s.usedList, i) !in s.blankList
            && forall x :: x in Removed(s.usedList, i) ==> 0 <= x < |s.t|
  {
    LooseParts(s);
    RemovedElements(s.usedList, i);
    BeforeElement(s.freeList, at);
    BeforeElement(s.usedList, i);
  }

  /** No free block starts where block p ends. */
  ghost predicate GapBehind(t: Table, s: seq<int>, p: int) {
    && InTable(t, s) && 0 <= p < |t|
    && forall j :: 0 <= j < |s| ==> t[s[j]].addr != t[p].End()
  }

  lemma RemovedGap(t: Table, s: seq<int>, i: nat)
    requires Ascending(t, s) && Apart(t, s, |s|) && i < |s|
    requires forall j :: 0 <= j < |s| ==> t[s[j]].size > 0
    ensures GapBehind(t, Removed(s, i), s[i])
  {
    var r := Removed(s, i);
    forall j | 0 <= j < |r|
      ensures 0 <= r[j] < |t| && t[r[j]].addr != t[s[i]].End()
    {
      var j' := if j < i then j else j + 1;
      assert r[j] == s[j'];
      if j' < i {
        assert t[s[j']].End() <= t[s[i]].addr;
      } else if j' > i + 1 {
        assert t[s[i]].End() <= t[s[i + 1]].addr && t[s[i + 1]].End() <= t[s[j']].addr;
      }
    }
  }

  lemma TilesPositive(s: Shape)
    requires s.Loose()
    ensures forall x :: x in s.tiles ==> 0 <= x < |s.t| && s.t[x].size > 0 && s.t[x].size % ALIGNMENT == 0
    ensures forall j :: 0 <= j < |s.freeList| ==> 0 <= s.freeList[j] < |s.t| && s.t[s.freeList[j]].size > 0
  {
    forall x | x in s.tiles
      ensures 0 <= x < |s.t| && s.t[x].size > 0 && s.t[x].size % ALIGNMENT == 0
    {
      var k := Position(s.tiles, x);
    }
    assert forall j :: 0 <= j < |s.freeList| ==> s.freeList[j] in s.freeList;
  }

  /** The partition when one free descriptor becomes used. */
  lemma TakePartition(free: seq<int>, used: seq<int>, blank: seq<int>, n: nat, i: nat)
    requires Partition(free, used, blank, n) && i < |free|
    ensures Partition(Removed(free, i), [free[i]] + used, blank, n)
    ensures forall x :: (x in free || x in used <==> x in Removed(free, i) || x in [free[i]] + used)
  {
    assert free[i] in free;
    RemovedElements(free, i);
  }

  lemma PushUsed(t: Table, head: int, s: seq<int>, b: int)
    requires Chain(t, head, s) && 0 <= b < |t| && b !in s
    ensures Chain(Relink(t, b, head), b, [b] + s)
  {
    var t', s' := Relink(t, b, head), [b] + s;
    forall k | 0 <= k < |s'|
      ensures 0 <= s'[k] < |t'| && t'[s'[k]].next == Link(s', k + 1)
    {
      if k > 0 {
        assert s'[k] == s[k - 1] && s[k - 1] in s;
        assert t[s[k - 1]].next == Link(s, k);
      }
    }
  }

  lemma TakeOutside(s: Shape, i: nat)
    requires s.Loose() && i < |s.freeList|
    ensures var p, prev := s.freeList[i], Before(s.freeList, i);
            && 0 <= p < |s.t| && p !in Removed(s.freeList, i) && p !in s.usedList && p !in s.blankList
            && prev !in s.usedList && prev !in s.blankList
            && |Removed(s.freeList, i)| == |s.freeList| - 1
  {
    LooseParts(s);
    RemovedElements(s.freeList, i);
    BeforeElement(s.freeList, i);
    assert s.freeList[i] in s.freeList;
  }

  lemma TakeChains(s: Shape, i: nat)
    requires s.Loose() && i < |s.freeList|
    ensures var p := s.freeList[i];
            var t2 := Relink(Relink(s.t, Before(s.freeList, i), Link(s.freeList, i + 1)), p, s.used);
            && Chain(t2, if i == 0 then Link(s.freeList, 1) else s.free, Removed(s.freeList, i))
            && Chain(t2, p, [p] + s.usedList) && Chain(t2, s.blank, s.blankList)
  {
    hide Chain, Tiles, NoDup, Disjoint, Partition, Relink, Shape.Loose, Ascending;
    LooseParts(s);
    TakeOutside(s, i);
    var F, U, R := s.freeList, s.usedList, s.blankList;
    var p := F[i];
    var t1 := Relink(s.t, Before(F, i), Link(F, i + 1));
    RelinkLength(s.t, Before(F, i), Link(F, i + 1));
    PartitionNoDup(F, U, R, |s.t|);
    UnlinkChain(s.t, s.free, F, i);
    RelinkFrame(t1, if i == 0 then Link(F, 1) else s.free, Removed(F, i), p, s.used);
    RelinkFrame(s.t, s.used, U, Before(F, i), Link(F, i + 1));
    PushUsed(t1, s.used, U, p);
    RelinkFrame(s.t, s.blank, R, Before(F, i), Link(F, i + 1));
    RelinkFrame(t1, s.blank, R, p, s.used);
  }

  lemma RelinkLength(t: Table, i: int, next: int)
    ensures |Relink(t, i, next)| == |t|
  {
  }

  lemma TakeExtents(s: Shape, i: nat)
    requires s.Valid() && i < |s.freeList|
    ensures var p := s.freeList[i];
            var t2 := Relink(Relink(s.t, Before(s.freeList, i), Link(s.freeList, i + 1)), p, s.used);
            && SameExtents(s.t, t2) && GapBehind(t2, Removed(s.freeList, i), p) && |t2| == |s.t|
            && Tiles(t2, s.tiles, s.base, s.top) && Ascending(t2, Removed(s.freeList, i))
            && |Removed(s.freeList, i)| == |s.freeList| - 1 && Apart(t2, Removed(s.freeList, i), |s.freeList| - 1)
  {
    hide Chain, Tiles, NoDup, Disjoint, Removed, Partition, Relink, SameExtents, Ascending, Apart, GapBehind;
    TilesPositive(s);
    TakeOutside(s, i);
    var F := s.freeList;
    var p := F[i];
    var t1 := Relink(s.t, Before(F, i), Link(F, i + 1));
    var t2 := Relink(t1, p, s.used);
    RelinkExtents(s.t, Before(F, i), Link(F, i + 1));
    RelinkExtents(t1, p, s.used);
    ExtentsCompose(s.t, t1, t2);
    SameLength(s.t, t2);
    RemovedAscending(s.t, F, i);
    RemovedGap(s.t, F, i);
    ExtentsDecide(s.t, t2, s.tiles, s.base, s.top, Removed(F, i), |F| - 1);
    ExtentsGap(s.t, t2, Removed(F, i), p);
  }

  /** alloc_block: block freeList[i] becomes the first used block (src/kmalloc.c:157-164). */
  lemma TakeStep(s: Shape, i: nat)
    requires s.Valid() && i < |s.freeList|
    ensures var p := s.freeList[i];
            var t2 := Relink(Relink(s.t, Before(s.freeList, i), Link(s.freeList, i + 1)), p, s.used);
            && SameExtents(s.t, t2) && GapBehind(t2, Removed(s.freeList, i), p)
            && s.(t := t2, free := if i == 0 then Link(s.freeList, 1) else s.free, used := p,
                  freeList := Removed(s.freeList, i), usedList := [p] + s.usedList).Valid()
  {
    hide Chain, Tiles, Removed, Partition, Relink, SameExtents, Shape.Loose, Ascending, Apart, GapBehind, InTable;
    LooseParts(s);
    TakeChains(s, i);
    TakeExtents(s, i);
    TakePartition(s.freeList, s.usedList, s.blankList, |s.t|, i);
    var p := s.freeList[i];
    PartsLoose(s.(t := Relink(Relink(s.t, Before(s.freeList, i), Link(s.freeList, i + 1)), p, s.used),
                  free := if i == 0 then Link(s.freeList, 1) else s.free, used := p,
                  freeList := Removed(s.freeList, i), usedList := [p] + s.usedList));
  }

  lemma ExtentsGap(t: Table, t': Table, s: seq<int>, p: int)
    requires SameExtents(t, t') && GapBehind(t, s, p)
    ensures GapBehind(t', s, p)
  {
  }

  ghost predicate SameLinks(t: Table, t': Table) {
    |t'| == |t| && forall x :: 0 <= x < |t| ==> t'[x].next == t[x].next
  }

  lemma LinksDecide(t: Table, t': Table, head: int, s: seq<int>)
    requires SameLinks(t, t') && Chain(t, head, s)
    ensures Chain(t', head, s)
  {
    FrameChain(t, t', head, s);
  }

  /** A change of one descriptor outside a list does not change the list's ranges. */
  lemma OutsideDecides(t: Table, p: int, b: Block, s: seq<int>, k: nat)
    requires 0 <= p < |t| && p !in s && InTable(t, s)
    ensures Ascending(t, s) ==> Ascending(t[p := b], s)
    ensures Apart(t, s, k) ==> Apart(t[p := b], s, k)
  {
    assert forall j :: 0 <= j < |s| ==> s[j] in s;
  }

  /** The block that reaches the top is the last tile; resizing it moves the top. */
  lemma ResizeTiles(t: Table, tiles: seq<int>, base: nat, top: nat, p: int, num: nat)
    requires Tiles(t, tiles, base, top) && p in tiles && t[p].End() >= top
    requires num > 0 && num % ALIGNMENT == 0
    ensures Tiles(t[p := t[p].(size := num)], tiles, base, t[p].addr + num)
  {
    var k := Position(tiles, p);
    TilesDistinct(t, tiles, base, top);
    TilesInRange(t, tiles, base, top, k);
    if k < |tiles| - 1 {
      TilesAscend(t, tiles, base, top, k, |tiles| - 1);
      assert false;
    }
    forall i | 0 <= i < |tiles| - 1
      ensures tiles[i] != p
    {
    }
  }

  /** alloc_block: the used block at the top takes exactly num bytes (src/kmalloc.c:165-168). */
  lemma ResizeStep(s: Shape, p: int, num: nat)
    requires s.Valid() && p in s.usedList && 0 <= p < |s.t| && s.t[p].End() >= s.top
    requires num > 0 && num % ALIGNMENT == 0 && s.t[p].addr + num <= s.limit
    ensures s.(t := s.t[p := s.t[p].(size := num)], top := s.t[p].addr + num).Valid()
  {
    hide Chain, Tiles, Partition, Shape.Loose, Ascending, Apart;
    LooseParts(s);
    var t' := s.t[p := s.t[p].(size := num)];
    ResizeTiles(s.t, s.tiles, s.base, s.top, p, num);
    LinksDecide(s.t, t', s.free, s.freeList);
    LinksDecide(s.t, t', s.used, s.usedList);
    LinksDecide(s.t, t', s.blank, s.blankList);
    PartitionNoDup(s.freeList, s.usedList, s.blankList, |s.t|);
    OutsideDecides(s.t, p, s.t[p].(size := num), s.freeList, |s.freeList|);
    PartsLoose(s.(t := t', top := s.t[p].addr + num));
  }

  lemma RestOfChain(t: Table, head: int, s: seq<int>)
    requires Chain(t, head, s) && s != []
    ensures t[s[0]].next == Link(s, 1) && Chain(t, Link(s, 1), s[1..])
  {
    forall i | 0 <= i < |s| - 1
      ensures t[s[1..][i]].next == Link(s[1..], i + 1)
    {
      assert s[1..][i] == s[i + 1];
      assert t[s[i + 1]].next == Link(s, i + 2);
    }
  }

  lemma AppendTile(t: Table, tiles: seq<int>, base: nat, top: nat, x: int, b: Block)
    requires Tiles(t, tiles, base, top) && 0 <= x < |t| && x !in tiles
    requires b.addr == top && b.size > 0 && b.size % ALIGNMENT == 0
    ensures Tiles(t[x := b], tiles + [x], base, b.End())
  {
    assert forall j :: 0 <= j < |tiles| ==> tiles[j] in tiles;
  }

  /** alloc_block: a blank descriptor becomes a used block at the top (src/kmalloc.c:188-197). */
  lemma NewTopStep(s: Shape, num: nat)
    requires s.Valid() && s.blankList != [] && num > 0 && num % ALIGNMENT == 0 && s.top + num <= s.limit
    ensures var x := s.blankList[0];
            && 0 <= x < |s.t| && s.t[x].next == Link(s.blankList, 1) && x !in s.usedList
            && s.(t := s.t[x := Block(s.top, s.used, num)], used := x, blank := Link(s.blankList, 1),
                  top := s.top + num,
                  usedList := [x] + s.usedList, blankList := s.blankList[1..], tiles := s.tiles + [x]).Valid()
  {
    hide Chain, Tiles, Shape.Loose, Ascending, Apart;
    LooseParts(s);
    var x := s.blankList[0];
    var b := Block(s.top, s.used, num);
    var t' := s.t[x := b];
    assert x in s.blankList && 0 <= x < |s.t|;
    RestOfChain(s.t, s.blank, s.blankList);
    assert x !in s.blankList[1..];
    assert forall y :: y in s.blankList[1..] ==> y in s.blankList;
    FrameOne(s.t, Link(s.blankList, 1), s.blankList[1..], x, b);
    FrameOne(s.t, s.free, s.freeList, x, b);
    FrameOne(s.t, s.used, s.usedList, x, b);
    PushUsed(t', s.used, s.usedList, x);
    assert Relink(t', x, s.used) == t';
    AppendTile(s.t, s.tiles, s.base, s.top, x, b);
    OutsideDecides(s.t, x, b, s.freeList, |s.freeList|);
    assert Partition(s.freeList, [x] + s.usedList, s.blankList[1..], |s.t|);
    PartsLoose(s.(t := t', used := x, blank := Link(s.blankList, 1), top := s.top + num,
                  usedList := [x] + s.usedList, blankList := s.blankList[1..], tiles := s.tiles + [x]));
  }

  /** The table after block p was cut to num bytes and descriptor x took the rest. */
  function Cut(t: Table, p: int, num: nat, x: int): Table
    requires 0 <= p < |t| && 0 <= x < |t| && num <= t[p].size
  {
    t[p := t[p].(size := num)][x := Block(t[p].addr + num, t[x].next, t[p].size - num)]
  }

  ghost predicate IsInserted(s: seq<int>, at: nat, b: int, r: seq<int>) {
    && at <= |s| && |r| == |s| + 1 && r[at] == b
    && forall k {:trigger r[k]} :: 0 <= k < |r| && k != at ==> r[k] == if k < at then s[k] else s[k - 1]
  }

  lemma InsertedIs(s: seq<int>, at: nat, b: int)
    requires at <= |s|
    ensures IsInserted(s, at, b, Inserted(s, at, b))
  {
  }

  /** Tile k keeps its start, x takes the rest of it, and every other tile stays. */
  lemma SplitTilesAt(t: Table, t': Table, tiles: seq<int>, base: nat, top: nat, k: nat, x: int, r: seq<int>)
    requires Tiles(t, tiles, base, top) && |t'| == |t| && k < |tiles| && IsInserted(tiles, k + 1, x, r) && 0 <= x < |t|
    requires forall j :: 0 <= j < |tiles| && j != k ==> t'[tiles[j]] == t[tiles[j]]
    requires t'[tiles[k]].addr == t[tiles[k]].addr && t'[tiles[k]].End() == t'[x].addr
    requires t'[x].End() == t[tiles[k]].End()
    requires t'[tiles[k]].size > 0 && t'[tiles[k]].size % ALIGNMENT == 0
    requires t'[x].size > 0 && t'[x].size % ALIGNMENT == 0
    ensures Tiles(t', r, base, top)
  {
    forall i | 0 <= i < |r|
      ensures 0 <= r[i] < |t'| && t'[r[i]].size > 0 && t'[r[i]].size % ALIGNMENT == 0
    {
    }
    forall i, j | 0 <= i && j == i + 1 && j < |r|
      ensures t'[r[i]].End() == t'[r[j]].addr
    {
    }
    assert r[0] == tiles[0];
    assert r[|r| - 1] == if k == |tiles| - 1 then x else tiles[|tiles| - 1];
  }

  lemma SplitTiles(t: Table, tiles: seq<int>, base: nat, top: nat, k: nat, num: nat, x: int)
    requires Tiles(t, tiles, base, top) && k < |tiles| && 0 <= x < |t| && x !in tiles
    requires 0 < num < t[tiles[k]].size && num % ALIGNMENT == 0 && t[tiles[k]].size % ALIGNMENT == 0
    ensures Tiles(Cut(t, tiles[k], num, x), Inserted(tiles, k + 1, x), base, top)
  {
    hide Tiles, Inserted, IsInserted;
    TilesDistinct(t, tiles, base, top);
    TilesInTable(t, tiles, base, top);
    var p := tiles[k];
    var t', r := Cut(t, p, num, x), Inserted(tiles, k + 1, x);
    InsertedIs(tiles, k + 1, x);
    forall j | 0 <= j < |tiles| && j != k
      ensures t'[tiles[j]] == t[tiles[j]]
    {
      assert tiles[j] in tiles && tiles[j] != p;
    }
    assert p in tiles;
    SplitTilesAt(t, t', tiles, base, top, k, x, r);
  }

  /** The rest of a split block has a gap to its free neighbours on both sides. */
  lemma SplitApart(t: Table, tiles: seq<int>, base: nat, top: nat, s: seq<int>, at: nat, k: nat, x: int)
    requires Tiles(t, tiles, base, top) && InPlace(t, s, at, x) && Apart(t, s, |s|)
    requires k + 1 < |tiles| && tiles[k + 1] == x && tiles[k] !in s && forall y :: y in s ==> y in tiles
    requires GapBehind(t, s, x)
    ensures Apart(t, Inserted(s, at, x), |s| + 1)
  {
    var r := Inserted(s, at, x);
    forall i, j | 0 <= i && j == i + 1 && j < |r|
      ensures 0 <= r[i] < |t| && 0 <= r[j] < |t| && t[r[i]].End() != t[r[j]].addr
    {
      if j == at {
        assert r[i] == s[i] && s[i] in s && r[j] == x;
        if t[s[i]].End() == t[x].addr {
          var l := Position(tiles, s[i]);
          NextTile(t, tiles, base, top, l, x);
          TilesDistinct(t, tiles, base, top);
          assert false;
        }
      } else if i == at {
        assert r[i] == x && r[j] == s[at];
      } else {
        assert r[i] == s[if i < at then i else i - 1] && r[j] == s[if j < at then j else j - 1];
      }
    }
  }

  lemma SplitPartition(free: seq<int>, used: seq<int>, blank: seq<int>, n: nat, at: nat)
    requires Partition(free, used, blank, n) && blank != [] && at <= |free|
    ensures Partition(Inserted(free, at, blank[0]), used, blank[1..], n)
    ensures forall x :: (x in Inserted(free, at, blank[0]) <==> x in free || x == blank[0])
  {
    assert blank[0] in blank && blank[0] !in blank[1..];
    assert forall y :: y in blank[1..] ==> y in blank;
    InsertedElements(free, at, blank[0]);
  }

  lemma CutOutside(s: Shape, p: int)
    requires s.Loose() && p in s.usedList && s.blankList != []
    ensures var x := s.blankList[0];
            && 0 <= x < |s.t| && x !in s.freeList && x !in s.usedList && x != p && x !in s.blankList[1..]
                 && x !in s.tiles
            && p !in s.freeList && p in s.tiles
  {
    LooseParts(s);
    assert s.blankList[0] in s.blankList;
  }

  lemma SplitGap(t: Table, s: seq<int>, p: int, num: nat, x: int)
    requires GapBehind(t, s, p) && 0 <= x < |t| && p !in s && x !in s && x != p && num <= t[p].size
    ensures GapBehind(Cut(t, p, num, x), s, x)
  {
    assert forall j :: 0 <= j < |s| ==> s[j] in s;
  }

  /** Cutting p and handing the rest to blank descriptor x leaves the old chains alone. */
  lemma CutStep(s: Shape, p: int, num: nat)
    requires s.Valid() && p in s.usedList && s.blankList != [] && 0 <= p < |s.t|
    requires 0 < num < s.t[p].size && num % ALIGNMENT == 0 && GapBehind(s.t, s.freeList, p)
    ensures var x := s.blankList[0];
            && 0 <= x < |s.t| && x !in s.freeList && x !in s.usedList && x != p && x !in s.blankList[1..]
            && s.t[x].next == Link(s.blankList, 1)
            && (var t1 := Cut(s.t, p, num, x);
                && Chain(t1, s.free, s.freeList) && Chain(t1, s.used, s.usedList)
                && Chain(t1, Link(s.blankList, 1), s.blankList[1..])
                && Ascending(t1, s.freeList) && Apart(t1, s.freeList, |s.freeList|)
                && GapBehind(t1, s.freeList, x)
                && p in s.tiles && Tiles(t1, Inserted(s.tiles, Position(s.tiles, p) + 1, x), s.base, s.top))
  {
    hide Tiles, Shape.Loose, Ascending, Apart, Chain, Partition, Inserted;
    LooseParts(s);
    CutOutside(s, p);
    var x := s.blankList[0];
    var b, b' := s.t[p].(size := num), Block(s.t[p].addr + num, s.t[x].next, s.t[p].size - num);
    var t0 := s.t[p := b];
    RestOfChain(s.t, s.blank, s.blankList);
    LinksDecide(s.t, t0, s.free, s.freeList);
    LinksDecide(s.t, t0, s.used, s.usedList);
    LinksDecide(s.t, t0, Link(s.blankList, 1), s.blankList[1..]);
    FrameOne(t0, s.free, s.freeList, x, b');
    FrameOne(t0, s.used, s.usedList, x, b');
    FrameOne(t0, Link(s.blankList, 1), s.blankList[1..], x, b');
    OutsideDecides(s.t, p, b, s.freeList, |s.freeList|);
    OutsideDecides(t0, x, b', s.freeList, |s.freeList|);
    SplitGap(s.t, s.freeList, p, num, x);
    TilesPositive(s);
    SplitTiles(s.t, s.tiles, s.base, s.top, Position(s.tiles, p), num, x);
  }

  lemma SplitChains(s: Shape, t1: Table, at: nat)
    requires s.Loose() && s.blankList != [] && at <= |s.freeList| && |t1| == |s.t|
    requires Chain(t1, s.used, s.usedList) && Chain(t1, Link(s.blankList, 1), s.blankList[1..])
    ensures var x := s.blankList[0];
            var t2 := Relink(Relink(t1, Before(s.freeList, at), x), x, Link(s.freeList, at));
            && Chain(t2, s.used, s.usedList) && Chain(t2, Link(s.blankList, 1), s.blankList[1..])
            && SameExtents(t1, t2) && |t2| == |s.t|
  {
    hide Chain, Relink, SameExtents, Shape.Loose;
    OutsideSplit(s, at);
    var F, R := s.freeList, s.blankList;
    var x := R[0];
    var t1' := Relink(t1, Before(F, at), x);
    RelinkExtents(t1, Before(F, at), x);
    RelinkExtents(t1', x, Link(F, at));
    ExtentsCompose(t1, t1', Relink(t1', x, Link(F, at)));
    SameLength(t1, Relink(t1', x, Link(F, at)));
    RelinkFrame(t1, s.used, s.usedList, Before(F, at), x);
    RelinkFrame(t1', s.used, s.usedList, x, Link(F, at));
    RelinkFrame(t1, Link(R, 1), R[1..], Before(F, at), x);
    RelinkFrame(t1', Link(R, 1), R[1..], x, Link(F, at));
  }

  lemma SplitRanges(s: Shape, t1: Table, t2: Table, p: int, at: nat)
    requires s.Loose() && s.blankList != [] && p in s.usedList && p in s.tiles && SameExtents(t1, t2)
    requires var T' := Inserted(s.tiles, Position(s.tiles, p) + 1, s.blankList[0]);
             Tiles(t1, T', s.base, s.top)
    requires InPlace(t1, s.freeList, at, s.blankList[0]) && GapBehind(t1, s.freeList, s.blankList[0])
    requires Ascending(t1, s.freeList) && Apart(t1, s.freeList, |s.freeList|)
    ensures var x := s.blankList[0];
            var T' := Inserted(s.tiles, Position(s.tiles, p) + 1, x);
            && Tiles(t2, T', s.base, s.top) && Ascending(t2, Inserted(s.freeList, at, x))
            && Apart(t2, Inserted(s.freeList, at, x), |s.freeList| + 1)
            && (forall y :: y in T' <==> y in Inserted(s.freeList, at, x) || y in s.usedList)
  {
    hide Tiles, Shape.Loose, Ascending, Apart, Chain, SameExtents, GapBehind, InPlace, Inserted, Partition;
    InPlaceBound(t1, s.freeList, at, s.blankList[0]);
    OutsideSplit(s, at);
    LooseParts(s);
    var x, k := s.blankList[0], Position(s.tiles, p);
    var T' := Inserted(s.tiles, k + 1, x);
    InsertedElements(s.tiles, k + 1, x);
    InsertedElements(s.freeList, at, x);
    InsertedAt(s.tiles, k, x);
    InsertAscending(t1, T', s.base, s.top, s.freeList, at, x);
    SplitApart(t1, T', s.base, s.top, s.freeList, at, k, x);
    ExtentsDecide(t1, t2, T', s.base, s.top, Inserted(s.freeList, at, x), |s.freeList| + 1);
  }

  /** alloc_block: the rest of a split block goes to the free list and touches no free block (src/kmalloc.c:169-180). */
  lemma SplitStep(s: Shape, p: int, num: nat, at: nat, free': int)
    requires s.Valid() && p in s.usedList && s.blankList != [] && 0 <= p < |s.t| && 0 <= s.blankList[0] < |s.t|
    requires 0 < num < s.t[p].size && num % ALIGNMENT == 0 && GapBehind(s.t, s.freeList, p)
    requires var x := s.blankList[0];
             var t1 := Cut(s.t, p, num, x);
             && InPlace(t1, s.freeList, at, x)
             && Chain(Relink(Relink(t1, Before(s.freeList, at), x), x, Link(s.freeList, at)), free',
                  Inserted(s.freeList, at, x))
    ensures var x := s.blankList[0];
            var t1 := Cut(s.t, p, num, x);
            var t2 := Relink(Relink(t1, Before(s.freeList, at), x), x, Link(s.freeList, at));
            && SameExtents(t1, t2) && p in s.tiles
            && s.(t := t2, free := free', blank := Link(s.blankList, 1), freeList := Inserted(s.freeList, at, x),
                  blankList := s.blankList[1..], tiles := Inserted(s.tiles, Position(s.tiles, p) + 1, x)).Valid()
  {
    hide Tiles, Shape.Loose, Ascending, Apart, Chain, Relink, SameExtents, GapBehind, InPlace, Inserted, Partition, Cut,
         InTable, Position, Link, Before;
    CutStep(s, p, num);
    LooseParts(s);
    var x := s.blankList[0];
    var t1 := Cut(s.t, p, num, x);
    var t2 := Relink(Relink(t1, Before(s.freeList, at), x), x, Link(s.freeList, at));
    CutLength(s.t, p, num, x);
    InPlaceBound(t1, s.freeList, at, x);
    SplitChains(s, t1, at);
    SplitPartition(s.freeList, s.usedList, s.blankList, |s.t|, at);
    SplitRanges(s, t1, t2, p, at);
    InsertedElements(s.freeList, at, x);
    PartsLoose(s.(t := t2, free := free', blank := Link(s.blankList, 1), freeList := Inserted(s.freeList, at, x),
                  blankList := s.blankList[1..], tiles := Inserted(s.tiles, Position(s.tiles, p) + 1, x)));
  }

  lemma InsertedDef(s: seq<int>, at: nat, b: int)
    requires at <= |s|
    ensures Inserted(s, at, b) == s[..at] + [b] + s[at..]
  {
  }

  lemma InPlaceBound(t: Table, s: seq<int>, at: nat, b: int)
    requires InPlace(t, s, at, b)
    ensures at <= |s|
  {
  }

  lemma InsertedLength(s: seq<int>, at: nat, b: int)
    requires at <= |s|
    ensures |Inserted(s, at, b)| == |s| + 1
  {
  }

  lemma InsertedAt(s: seq<int>, k: nat, x: int)
    requires k < |s|
    ensures var r := Inserted(s, k + 1, x); k + 1 < |r| && r[k] == s[k] && r[k + 1] == x
  {
  }

  lemma CutLength(t: Table, p: int, num: nat, x: int)
    requires 0 <= p < |t| && 0 <= x < |t| && num <= t[p].size
    ensures |Cut(t, p, num, x)| == |t|
  {
  }

  lemma OutsideSplit(s: Shape, at: nat)
    requires s.Loose() && s.blankList != [] && at <= |s.freeList|
    ensures Before(s.freeList, at) !in s.usedList && Before(s.freeList, at) !in s.blankList[1..]
    ensures forall y :: y in s.freeList || y in s.usedList ==> y != s.blankList[0]
    ensures s.blankList[0] !in s.tiles && s.blankList[0] !in s.blankList[1..]
    ensures forall y :: y in s.usedList ==> y !in s.freeList
  {
    LooseParts(s);
    BeforeElement(s.freeList, at);
    assert forall y :: y in s.blankList[1..] ==> y in s.blankList;
    assert s.blankList[0] in s.blankList;
  }

  /** The blocks of s occupy the same ranges in t' as in t. */
  ghost predicate KeepsBlocks(t: Table, t': Table, s: seq<int>) {
    forall x :: x in s ==> 0 <= x < |t| && x < |t'| && t'[x].addr == t[x].addr && t'[x].size == t[x].size
  }

  /** Which blocks alloc_block accepts for num bytes (src/kmalloc.c:154-156). */
  predicate ReachesTop(b: Block, num: nat, top: nat, limit: nat) {
    b.End() >= top && b.addr + num <= limit
  }

  predicate Fits(b: Block, num: nat, top: nat, limit: nat) {
    ReachesTop(b, num, top, limit) || b.size >= num
  }

  /** Can a request for num (rounded) bytes be served from state s? */
  ghost predicate CanServe(s: Shape, num: nat) {
    || (exists j :: 0 <= j < |s.freeList| && 0 <= s.freeList[j] < |s.t|
         && Fits(s.t[s.freeList[j]], num, s.top, s.limit))
    || (s.blankList != [] && s.top + num <= s.limit)
  }

  /**
    The position in the free list of the first block that is long enough for num bytes, or that
    ends at the top with room up to the limit; the length of the list if there is none.
   */
  ghost function FirstFit(s: Shape, num: nat): (j: nat)
    ensures j <= |s.freeList|
    ensures forall i :: 0 <= i < j ==> !CanHold(s, s.freeList[i], num)
    ensures j < |s.freeList| ==> CanHold(s, s.freeList[j], num)
  {
    FirstFrom(s, num, 0)
  }

  ghost function FirstFrom(s: Shape, num: nat, i: nat): (j: nat)
    requires i <= |s.freeList|
    ensures i <= j <= |s.freeList| && forall k :: i <= k < j ==> !CanHold(s, s.freeList[k], num)
    ensures j < |s.freeList| ==> CanHold(s, s.freeList[j], num)
    decreases |s.freeList| - i
  {
    if i == |s.freeList| || CanHold(s, s.freeList[i], num) then i else FirstFrom(s, num, i + 1)
  }

  ghost predicate CanHold(s: Shape, x: int, num: nat) {
    && 0 <= x < |s.t|
    && (s.t[x].size >= num || (s.t[x].addr + s.t[x].size >= s.top && s.t[x].addr + num <= s.limit))
  }

  /**
    Free block x was granted for num bytes: cut at the top, which moves down to its end; or split
    from 16 spare bytes on, if a descriptor is left; or as it is (src/kmalloc.c:157-182).
   */
  ghost predicate Granted(s: Shape, x: int, num: nat, s': Shape) {
    && 0 <= x < |s.t| && x < |s'.t| && s'.t[x].addr == s.t[x].addr
    && if s.t[x].addr + s.t[x].size >= s.top && s.t[x].addr + num <= s.limit then
         && s'.t[x].size == num && s'.top == s.t[x].addr + num
         && |s'.freeList| + 1 == |s.freeList| && s'.blankList == s.blankList
       else if s.blankList != [] && s.t[x].size >= num + 16 then
         && s'.t[x].size == num && s'.top == s.top
         && |s'.freeList| == |s.freeList| && s'.blankList == s.blankList[1..]
       else
         && s'.t[x].size == s.t[x].size && s'.top == s.top
         && |s'.freeList| + 1 == |s.freeList| && s'.blankList == s.blankList
  }

  lemma FirstFitIs(s: Shape, num: nat, i: nat)
    requires i <= |s.freeList| && forall j :: 0 <= j < i ==> !CanHold(s, s.freeList[j], num)
    requires i < |s.freeList| ==> CanHold(s, s.freeList[i], num)
    ensures FirstFit(s, num) == i
  {
    hide FirstFit, CanHold;
    FirstFitFacts(s, num);
  }

  lemma FirstFitFacts(s: Shape, num: nat)
    ensures var j := FirstFit(s, num);
            && j <= |s.freeList| && (forall i :: 0 <= i < j ==> !CanHold(s, s.freeList[i], num))
            && (j < |s.freeList| ==> CanHold(s, s.freeList[j], num))
  {
  }

  /** What free needs to know about the used block it unlinks. */
  lemma UsedFacts(s: Shape, i: nat)
    requires s.Valid() && i < |s.usedList|
    ensures var b, prev := s.usedList[i], Before(s.usedList, i);
            && 0 <= b < |s.t| && s.t[b].next == Link(s.usedList, i + 1)
            && (prev != NULL ==> 0 <= prev < |s.t| && i > 0) && (prev == NULL ==> i == 0 && s.used == b)
            && b !in s.freeList && NoDup(s.freeList)
            && Chain(Relink(s.t, prev, Link(s.usedList, i + 1)), s.free, s.freeList)
  {
    LooseParts(s);
    var prev := Before(s.usedList, i);
    assert s.usedList[i] in s.usedList;
    BeforeElement(s.usedList, i);
    LinkAt(s.t, s.used, s.usedList, i);
    RelinkFrame(s.t, s.free, s.freeList, prev, Link(s.usedList, i + 1));
  }

  lemma InPlaceExtents(t: Table, t': Table, s: seq<int>, at: nat, b: int)
    requires InPlace(t', s, at, b) && SameExtents(t, t')
    ensures InPlace(t, s, at, b)
  {
  }

  lemma ExtentsKeep(t: Table, t': Table, s: seq<int>)
    requires SameExtents(t, t') && forall x :: x in s ==> 0 <= x < |t|
    ensures KeepsBlocks(t, t', s)
  {
  }

  /** What alloc_block needs to know about the free block it takes. */
  lemma FreeFacts(s: Shape, i: nat)
    requires s.Valid() && i < |s.freeList|
    ensures var p, prev := s.freeList[i], Before(s.freeList, i);
            && 0 <= p < |s.t| && s.t[p].next == Link(s.freeList, i + 1) && p !in s.usedList
            && (prev != NULL ==> 0 <= prev < |s.t| && i > 0 && prev != p) && (prev == NULL ==> i == 0)
            && s.t[p].size > 0 && s.t[p].size % ALIGNMENT == 0
    ensures forall x :: x in s.usedList ==> 0 <= x < |s.t|
  {
    LooseParts(s);
    TakeOutside(s, i);
    BeforeElement(s.freeList, i);
    LinkAt(s.t, s.free, s.freeList, i);
    TilesPositive(s);
    assert s.freeList[i] in s.freeList;
  }

  /** The blocks of s other than p occupy the same ranges in t' as in t. */
  ghost predicate KeepsOthers(t: Table, t': Table, s: seq<int>, p: int) {
    forall x :: x in s && x != p ==> 0 <= x < |t| && x < |t'| && t'[x].addr == t[x].addr && t'[x].size == t[x].size
  }

  /** Cutting p changes no other used block. */
  lemma CutKeeps(s: Shape, p: int, num: nat, t2: Table)
    requires s.Loose() && p in s.usedList && s.blankList != [] && 0 <= p < |s.t| && 0 <= s.blankList[0] < |s.t|
    requires num <= s.t[p].size && SameExtents(Cut(s.t, p, num, s.blankList[0]), t2)
    ensures p < |t2| && t2[p].addr == s.t[p].addr && t2[p].size == num
    ensures KeepsOthers(s.t, t2, s.usedList, p)
  {
    OutsideSplit(s, 0);
    LooseParts(s);
  }

  lemma Rounded(num: nat)
    ensures RoundUp(num, ALIGNMENT) == (num + 7) / 8 * 8
  {
  }

  lemma RoundUpFits(num: nat)
    ensures num <= RoundUp(num, ALIGNMENT) < num + ALIGNMENT && RoundUp(num, ALIGNMENT) % ALIGNMENT == 0
    ensures num > 0 ==> RoundUp(num, ALIGNMENT) > 0
  {
  }

  /** Every block starts on an 8-byte boundary inside the heap. */
  lemma BlockAligned(s: Shape, x: int)
    requires s.Loose() && x in s.tiles
    ensures 0 <= x < |s.t| && s.t[x].addr % ALIGNMENT == 0 && s.base <= s.t[x].addr && s.t[x].End() <= s.top
  {
    var k := Position(s.tiles, x);
    TilesInRange(s.t, s.tiles, s.base, s.top, k);
    StartsAligned(s.t, s.tiles, s.base, s.top, k);
  }

  lemma {:induction false} StartsAligned(t: Table, tiles: seq<int>, base: nat, top: nat, k: nat)
    requires Tiles(t, tiles, base, top) && k < |tiles| && base % ALIGNMENT == 0
    ensures t[tiles[k]].addr % ALIGNMENT == 0
  {
    if k > 0 {
      StartsAligned(t, tiles, base, top, k - 1);
      assert t[tiles[k - 1]].End() == t[tiles[k]].addr;
    }
  }

  /** Live blocks do not overlap. */
  lemma LiveDisjoint(s: Shape, x: int, y: int)
    requires s.Loose() && x in s.usedList && y in s.usedList && x != y
    ensures 0 <= x < |s.t| && 0 <= y < |s.t| && (s.t[x].End() <= s.t[y].addr || s.t[y].End() <= s.t[x].addr)
  {
    LooseParts(s);
    TileOrder(s.t, s.tiles, s.base, s.top, x, y);
    TileOrder(s.t, s.tiles, s.base, s.top, y, x);
  }

  lemma BlankFacts(s: Shape)
    requires s.Valid()
    ensures s.blank == NULL <==> s.blankList == []
    ensures s.blankList != [] ==> s.blank == s.blankList[0] && 0 <= s.blank < |s.t|
  {
    LooseParts(s);
    assert s.blankList != [] ==> s.blankList[0] in s.blankList;
  }

  /** Taking a free block leaves every range as it was; the block taken is live now. */
  lemma TakeKeeps(s: Shape, i: nat, s1: Shape)
    requires s.Valid() && i < |s.freeList| && SameExtents(s.t, s1.t) && s1.usedList == [s.freeList[i]] + s.usedList
    requires 0 <= s.freeList[i] < |s.t|
    ensures KeepsOthers(s.t, s1.t, s1.usedList, s.freeList[i])
    ensures |s1.t| == |s.t| && s1.t[s.freeList[i]].addr == s.t[s.freeList[i]].addr
    ensures s1.t[s.freeList[i]].size == s.t[s.freeList[i]].size
    ensures s.freeList[i] in s1.usedList
  {
    hide Shape.Valid;
    FreeFacts(s, i);
  }

  lemma ResizeKeeps(t: Table, t': Table, s: seq<int>, p: int, num: nat)
    requires KeepsOthers(t, t', s, p) && 0 <= p < |t'|
    ensures KeepsOthers(t, t'[p := t'[p].(size := num)], s, p)
  {
  }

  lemma KeepsCompose(t: Table, t': Table, t'': Table, s: seq<int>, p: int)
    requires KeepsOthers(t, t', s, p) && KeepsOthers(t', t'', s, p)
    ensures KeepsOthers(t, t'', s, p)
  {
  }

  lemma NewKeeps(s: Shape, num: nat)
    requires s.Valid() && s.blankList != [] && 0 <= s.blankList[0] < |s.t|
    ensures var x := s.blankList[0];
            KeepsOthers(s.t, s.t[x := Block(s.top, s.used, num)], [x] + s.usedList, x)
  {
    LooseParts(s);
  }

  lemma UsedAligned(s: Shape, i: nat)
    requires s.Valid() && i < |s.usedList|
    ensures 0 <= s.usedList[i] < |s.t| && s.t[s.usedList[i]].addr % ALIGNMENT == 0
  {
    LooseParts(s);
    assert s.usedList[i] in s.usedList;
    BlockAligned(s, s.usedList[i]);
  }

  /** Neighbouring tiles that are both free would be neighbours in the free list too. */
  lemma FreeTilesApart(s: Shape, x: int, y: int)
    requires s.Valid() && x in s.freeList && y in s.freeList && 0 <= x < |s.t| && 0 <= y < |s.t|
    ensures s.t[x].End() != s.t[y].addr
  {
    LooseParts(s);
    TilesPositive(s);
    var F := s.freeList;
    var i, j := Position(F, x), Position(F, y);
    if j < i {
      assert s.t[F[j]].End() <= s.t[F[i]].addr;
    } else if i + 1 < j {
      assert s.t[F[i]].End() <= s.t[F[i + 1]].addr && s.t[F[i + 1]].End() <= s.t[F[j]].addr;
    }
  }

  lemma OneTile(s: Shape)
    requires s.Valid() && s.usedList == []
    ensures |s.tiles| <= 1
  {
    hide Chain, Ascending, Apart, Partition;
    LooseParts(s);
    if |s.tiles| > 1 {
      assert s.tiles[0] in s.tiles && s.tiles[1] in s.tiles;
      assert s.t[s.tiles[0]].End() == s.t[s.tiles[1]].addr;
      FreeTilesApart(s, s.tiles[0], s.tiles[1]);
      assert false;
    }
  }

  lemma SameValues(s: seq<int>, v: int)
    requires forall i :: 0 <= i < |s| ==> s[i] == v
    ensures |s| > 1 ==> s[0] == s[1]
  {
  }

  /** With nothing allocated the heap is untouched or one free block from base to top. */
  lemma FullRecovery(s: Shape)
    requires s.Valid() && s.usedList == []
    ensures |s.freeList| <= 1
    ensures s.freeList == [] ==> s.top == s.base && |s.blankList| == |s.t|
    ensures s.freeList != [] ==>
              0 <= s.freeList[0] < |s.t| && s.t[s.freeList[0]].addr == s.base && s.t[s.freeList[0]].End() == s.top
  {
    hide Chain, Ascending, Apart, Shape.Valid;
    ValidIsLoose(s);
    LooseParts(s);
    OneTile(s);
    var T, F := s.tiles, s.freeList;
    assert T != [] ==> T[0] in T;
    forall i | 0 <= i < |F|
      ensures T != [] && F[i] == T[0]
    {
      assert F[i] in F;
      assert F[i] in T;
    }
    SameValues(F, if T == [] then 0 else T[0]);
  }

  /** So when nothing is allocated, every rounded request up to the size of the heap is served. */
  lemma RecoveredServes(s: Shape, num: nat)
    requires s.Valid() && s.usedList == [] && s.t != []
    ensures CanServe(s, num) <==> num <= s.limit - s.base
  {
    FullRecovery(s);
    LooseParts(s);
    if s.freeList != [] {
      var b := s.t[s.freeList[0]];
      if num <= s.limit - s.base {
        assert Fits(b, num, s.top, s.limit);
      }
    }
  }

  /** The free addresses are exactly those of [base, top) that no used block covers. */
  lemma FreeAddresses(s: Shape, a: nat)
    requires s.Loose()
    ensures (exists i :: 0 <= i < |s.freeList| && 0 <= s.freeList[i] < |s.t| && Covers(s.t[s.freeList[i]], a))
            <==> s.base <= a < s.top
                 && !exists i :: 0 <= i < |s.usedList| && 0 <= s.usedList[i] < |s.t| && Covers(s.t[s.usedList[i]], a)
  {
    hide Chain, Tiles, Partition, Ascending;
    LooseParts(s);
    TilesCoverOnce(s.t, s.tiles, s.base, s.top, a);
    TilesInTable(s.t, s.tiles, s.base, s.top);
    PartitionNoDup(s.freeList, s.usedList, s.blankList, |s.t|);
    var F, U, T := s.freeList, s.usedList, s.tiles;
    forall i | 0 <= i < |F| && Covers(s.t[F[i]], a)
      ensures s.base <= a < s.top && forall j :: 0 <= j < |U| ==> !Covers(s.t[U[j]], a)
    {
      assert F[i] in F && F[i] in T;
      var k := Position(T, F[i]);
      forall j | 0 <= j < |U|
        ensures !Covers(s.t[U[j]], a)
      {
        assert U[j] in U && U[j] in T;
        var l := Position(T, U[j]);
      }
    }
    if s.base <= a < s.top && forall j :: 0 <= j < |U| ==> !Covers(s.t[U[j]], a) {
      var k :| 0 <= k < |T| && Covers(s.t[T[k]], a);
      assert T[k] in T;
      assert T[k] !in U;
      var i := Position(F, T[k]);
      assert Covers(s.t[F[i]], a);
    }
  }

  /** The heap init leaves: no blocks, all descriptors blank. */
  lemma InitialValid(s: Shape)
    requires |s.blankList| == |s.t| > 0 && s.freeList == [] && s.usedList == [] && s.tiles == []
    requires s.free == s.used == NULL && s.blank == 0
    requires s.base == s.top <= s.limit && s.base % ALIGNMENT == 0
    requires forall i :: 0 <= i < |s.t| ==>
               s.blankList[i] == i && s.t[i].next == if i + 1 < |s.t| then i + 1 else NULL
    ensures s.Valid()
  {
    InitialChain(s.t, s.blankList);
  }

  lemma InitialChain(t: Table, s: seq<int>)
    requires |s| == |t| && forall i :: 0 <= i < |t| ==> s[i] == i && t[i].next == if i + 1 < |t| then i + 1 else NULL
    ensures Chain(t, if s == [] then NULL else 0, s) && NoDup(s)
  {
  }
}
