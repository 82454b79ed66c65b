/**
  The whole state of the kernel heap as one value, its invariant, and the lemmas that say
  how each step of the allocator keeps it.
 */
module HeapShape {
  import opened HeapLists

  datatype Shape = Shape(
    t: Table, free: int, used: int, blank: int, top: nat,
    freeList: seq<int>, usedList: seq<int>, blankList: seq<int>, tiles: seq<int>,
    base: nat, limit: nat)
  {
    ghost predicate Linked() {
      && Chain(t, free, freeList) && Chain(t, used, usedList) && Chain(t, blank, blankList)
      && Partition(freeList, usedList, blankList, |t|)
    }

    /** The free and used blocks together tile [base, top). */
    ghost predicate Tiled() {
      && Tiles(t, tiles, base, top) && base % ALIGNMENT == 0 && top <= limit
      && forall x :: x in tiles <==> x in freeList || x in usedList
    }

    /** Everything but the promise that free neighbours have been merged. */
    ghost predicate Loose() {
      Linked() && Tiled() && Ascending(t, freeList)
    }

    ghost predicate Valid() {
      Loose() && Apart(t, freeList, |freeList|)
    }
  }

  /** run pushed element by element on the front of rest. */
  function Pushed(run: seq<int>, rest: seq<int>): (r: seq<int>)
    ensures |r| == |run| + |rest|
    ensures forall x :: x in r <==> x in run || x in rest
  {
    if run == [] then rest else [run[|run| - 1]] + Pushed(run[..|run| - 1], rest)
  }

  lemma PushedNone(rest: seq<int>)
    ensures Pushed([], rest) == rest
  {
  }

  lemma PushedNext(run: seq<int>, rest: seq<int>, j: nat)
    requires NoDup(run) && Disjoint(run, rest) && j < |run|
    ensures run[j] !in run[..j] && run[j] !in Pushed(run[..j], rest)
    ensures Pushed(run[..j + 1], rest) == [run[j]] + Pushed(run[..j], rest)
    ensures forall x :: x in run[..j + 1] <==> x in run[..j] || x == run[j]
  {
    assert run[..j + 1] == run[..j] + [run[j]] && run[..j + 1][..j] == run[..j];
  }

  lemma {:induction false} PushedNoDup(run: seq<int>, rest: seq<int>)
    requires NoDup(run) && NoDup(rest) && Disjoint(run, rest)
    ensures NoDup(Pushed(run, rest))
  {
    if run != [] {
      var init, x := run[..|run| - 1], run[|run| - 1];
      PushedNoDup(init, rest);
      assert x !in init;
      assert x in run && forall y :: y in init ==> y in run;
    }
  }

  /** The blocks from position f of the free list on touch each other, m times. */
  ghost predicate Touching(t: Table, s: seq<int>, f: nat, m: nat) {
    && f + m < |s| && InTable(t, s)
    && forall i, j :: f <= i < f + m && j == i + 1 ==> t[s[i]].End() == t[s[j]].addr
  }

  /** The block right behind tile i is the next tile. */
  lemma NextTile(t: Table, tiles: seq<int>, base: nat, top: nat, i: nat, x: int)
    requires Tiles(t, tiles, base, top) && i < |tiles| && x in tiles
    requires t[tiles[i]].End() == t[x].addr
    ensures i + 1 < |tiles| && tiles[i + 1] == x
  {
    var j := Position(tiles, x);
    if j <= i {
      if j < i { TilesAscend(t, tiles, base, top, j, i); }
      assert false;
    }
    if i + 1 < j {
      TilesAscend(t, tiles, base, top, i + 1, j);
      assert false;
    }
  }

  /** Touching free blocks are neighbours in the tiling too. */
  lemma {:induction false} RunInTiles(t: Table, tiles: seq<int>, base: nat, top: nat, s: seq<int>, f: nat, m: nat,
      i: nat)
    requires Tiles(t, tiles, base, top) && Touching(t, s, f, m)
    requires forall x :: x in s ==> x in tiles
    requires i < |tiles| && tiles[i] == s[f]
    ensures i + m < |tiles| && tiles[i..i + m + 1] == s[f..f + m + 1]
  {
    if m > 0 {
      RunInTiles(t, tiles, base, top, s, f, m - 1, i);
      assert tiles[i + m - 1] == tiles[i..i + m][m - 1] == s[f + m - 1];
      NextTile(t, tiles, base, top, i + m - 1, s[f + m]);
      assert tiles[i..i + m + 1] == tiles[i..i + m] + [tiles[i + m]];
      assert s[f..f + m + 1] == s[f..f + m] + [s[f + m]];
    }
  }

  /** t' is t after the m blocks behind freeList[f] were merged into it and released. */
  ghost predicate Merged(s: Shape, f: nat, m: nat, t': Table) {
    && f + m < |s.freeList| && |t'| == |s.t| && InTable(s.t, s.freeList)
    && (var p, last := s.freeList[f], s.freeList[f + m];
        && t'[p].addr == s.t[p].addr && t'[p].End() == s.t[last].End() && t'[p].next == Link(s.freeList, f + m + 1))
    && (forall x :: 0 <= x < |s.t| && x !in s.freeList[f..f + m + 1] ==> t'[x] == s.t[x])
  }

  /** s without the m elements behind position i. */
  function Without(s: seq<int>, i: nat, m: nat): seq<int>
    requires i + m < |s|
  {
    s[..i + 1] + s[i + m + 1..]
  }

  ghost predicate IsWithout(s: seq<int>, i: nat, m: nat, r: seq<int>) {
    i + m < |s| && |r| == |s| - m && forall k {:trigger r[k]} :: 0 <= k < |r| ==>
        r[k] == if k <= i then s[k] else s[k + m]
  }

  lemma WithoutIs(s: seq<int>, i: nat, m: nat)
    requires i + m < |s|
    ensures IsWithout(s, i, m, Without(s, i, m))
  {
  }

  /** The tiling that is left when tile i swallows the m tiles behind it. */
  lemma CutTiles(t: Table, t': Table, tiles: seq<int>, base: nat, top: nat, i: nat, m: nat, r: seq<int>)
    requires Tiles(t, tiles, base, top) && |t'| == |t| && IsWithout(tiles, i, m, r)
    requires forall k :: 0 <= k < |tiles| && !(i <= k <= i + m) ==> t'[tiles[k]] == t[tiles[k]]
    requires t'[tiles[i]].addr == t[tiles[i]].addr && t'[tiles[i]].End() == t[tiles[i + m]].End()
    requires t'[tiles[i]].size > 0 && t'[tiles[i]].size % ALIGNMENT == 0
    ensures Tiles(t', r, base, top)
  {
    forall k | 0 <= k < |r|
      ensures 0 <= r[k] < |t'| && t'[r[k]].size > 0 && t'[r[k]].size % ALIGNMENT == 0
    {
      var k' := if k <= i then k else k + m;
      assert r[k] == tiles[k'];
    }
    forall k, l | 0 <= k && l == k + 1 && l < |r|
      ensures t'[r[k]].End() == t'[r[l]].addr
    {
      var k', l' := if k < i then k else k + m, if l <= i then l else l + m;
      assert t[tiles[k']].End() == t[tiles[l']].addr;
    }
    assert r[0] == tiles[0];
    assert r[|r| - 1] == if i + m == |tiles| - 1 then tiles[i] else tiles[|tiles| - 1];
  }

  lemma MergeTiles(s: Shape, f: nat, m: nat, t': Table, i: nat)
    requires Tiles(s.t, s.tiles, s.base, s.top) && Merged(s, f, m, t')
    requires i + m < |s.tiles| && s.tiles[i..i + m + 1] == s.freeList[f..f + m + 1]
    ensures Tiles(t', Without(s.tiles, i, m), s.base, s.top)
  {
    hide Tiles, Without, IsWithout;
    WithoutIs(s.tiles, i, m);
    var T, F := s.tiles, s.freeList;
    var run := T[i..i + m + 1];
    TilesDistinct(s.t, T, s.base, s.top);
    TilesInTable(s.t, T, s.base, s.top);
    SizesAligned(s, i, m);
    assert F[f] == F[f..f + m + 1][0] == T[i] && F[f + m] == F[f..f + m + 1][m] == T[i + m];
    forall k | 0 <= k < |T| && !(i <= k <= i + m)
      ensures t'[T[k]] == s.t[T[k]]
    {
      assert T[k] !in run;
    }
    CutTiles(s.t, t', T, s.base, s.top, i, m, Without(T, i, m));
  }

  lemma TilesInTable(t: Table, tiles: seq<int>, base: nat, top: nat)
    requires Tiles(t, tiles, base, top)
    ensures InTable(t, tiles)
  {
  }

  lemma {:induction false} SizesAligned(s: Shape, i: nat, m: nat)
    requires Tiles(s.t, s.tiles, s.base, s.top) && i + m < |s.tiles|
    ensures s.t[s.tiles[i + m]].End() > s.t[s.tiles[i]].addr
    ensures (s.t[s.tiles[i + m]].End() - s.t[s.tiles[i]].addr) % ALIGNMENT == 0
  {
    if m > 0 {
      SizesAligned(s, i, m - 1);
      assert s.t[s.tiles[i + m - 1]].End() == s.t[s.tiles[i + m]].addr;
    }
  }

  lemma WithoutElements(s: seq<int>, i: nat, m: nat, r: seq<int>)
    requires IsWithout(s, i, m, r) && NoDup(s)
    ensures NoDup(r)
    ensures forall x :: x in r <==> x in s && x !in s[i + 1..i + m + 1]
  {
    var run := s[i + 1..i + m + 1];
    forall x | x in s && x !in run
      ensures x in r
    {
      var k :| 0 <= k < |s| && s[k] == x;
      assert r[if k <= i then k else k - m] == x;
    }
    forall x | x in r
      ensures x in s && x !in run
    {
      var k :| 0 <= k < |r| && r[k] == x;
      var k' := if k <= i then k else k + m;
      assert s[k'] == x;
      assert x !in run;
    }
  }

  /** Moving a run out of the free list onto the blank list keeps the three lists a partition. */
  lemma MergePartition(free: seq<int>, used: seq<int>, blank: seq<int>, n: nat, f: nat, m: nat)
    requires Partition(free, used, blank, n) && f + m < |free|
    ensures Partition(Without(free, f, m), used, Pushed(free[f + 1..f + m + 1], blank), n)
  {
    var run := free[f + 1..f + m + 1];
    WithoutElements(free, f, m, Without(free, f, m));
    assert forall x :: x in run ==> x in free;
    PushedNoDup(run, blank);
  }

  /** Free blocks outside the merged run keep their descriptors. */
  lemma MergedOutside(s: Shape, f: nat, m: nat, t': Table, k: nat)
    requires NoDup(s.freeList) && Merged(s, f, m, t') && k < |s.freeList| && !(f <= k <= f + m)
    ensures t'[s.freeList[k]] == s.t[s.freeList[k]]
  {
    var F := s.freeList;
    var run := F[f..f + m + 1];
    assert F[k] !in run;
  }

  lemma MergeChain(s: Shape, f: nat, m: nat, t': Table, r: seq<int>)
    requires Chain(s.t, s.free, s.freeList) && NoDup(s.freeList) && Merged(s, f, m, t')
    requires IsWithout(s.freeList, f, m, r)
    ensures Chain(t', s.free, r)
  {
    var F := s.freeList;
    forall k | 0 <= k < |r|
      ensures 0 <= r[k] < |t'| && t'[r[k]].next == Link(r, k + 1)
    {
      if k != f {
        MergedOutside(s, f, m, t', if k < f then k else k + m);
        assert s.t[r[k]].next == Link(F, if k < f then k + 1 else k + m + 1);
      }
    }
  }

  lemma MergeAscending(s: Shape, f: nat, m: nat, t': Table, r: seq<int>)
    requires Ascending(s.t, s.freeList) && NoDup(s.freeList) && Merged(s, f, m, t')
    requires IsWithout(s.freeList, f, m, r)
    ensures Ascending(t', r)
  {
    var F := s.freeList;
    forall k, l | 0 <= k < l < |r|
      ensures t'[r[k]].End() <= t'[r[l]].addr
    {
      var k', l' := if k < f then k else k + m, if l <= f then l else l + m;
      if k != f { MergedOutside(s, f, m, t', k'); }
      if l != f { MergedOutside(s, f, m, t', l'); }
      assert s.t[F[k']].End() <= s.t[F[l']].addr;
    }
  }

  /** Merging a run of touching free blocks keeps everything but the adjacency promise. */
  lemma MergeLoose(s: Shape, f: nat, m: nat, t': Table, blank': int, i: nat)
    requires s.Loose() && Touching(s.t, s.freeList, f, m) && Merged(s, f, m, t')
    requires i < |s.tiles| && s.tiles[i] == s.freeList[f]
    requires Chain(t', blank', Pushed(s.freeList[f + 1..f + m + 1], s.blankList))
    ensures i + m < |s.tiles|
    ensures s.(t := t', blank := blank', freeList := Without(s.freeList, f, m),
               blankList := Pushed(s.freeList[f + 1..f + m + 1], s.blankList),
               tiles := Without(s.tiles, i, m)).Loose()
  {
    hide Chain, Partition, Tiles, Ascending, IsWithout, Pushed, Without;
    RunInTiles(s.t, s.tiles, s.base, s.top, s.freeList, f, m, i);
    WithoutIs(s.freeList, f, m);
    PartitionNoDup(s.freeList, s.usedList, s.blankList, |s.t|);
    MergeTiles(s, f, m, t', i);
    MergePartition(s.freeList, s.usedList, s.blankList, |s.t|, f, m);
    MergeChain(s, f, m, t', Without(s.freeList, f, m));
    MergeAscending(s, f, m, t', Without(s.freeList, f, m));
    MergeUsed(s, f, m, t');
    MergeMembers(s, f, m, i);
  }

  lemma PartitionNoDup(free: seq<int>, used: seq<int>, blank: seq<int>, n: nat)
    requires Partition(free, used, blank, n)
    ensures NoDup(free) && NoDup(used) && NoDup(blank)
    ensures Disjoint(free, used) && Disjoint(free, blank) && Disjoint(used, blank)
  {
  }

  lemma MergeUsed(s: Shape, f: nat, m: nat, t': Table)
    requires s.Linked() && Merged(s, f, m, t')
    ensures Chain(t', s.used, s.usedList)
    ensures forall x :: x in s.usedList ==> t'[x] == s.t[x]
  {
    forall x | x in s.usedList
      ensures x !in s.freeList[f..f + m + 1] && 0 <= x < |s.t|
    {
      assert x in s.freeList[f..f + m + 1] ==> x in s.freeList;
    }
    assert forall i :: 0 <= i < |s.usedList| ==> s.usedList[i] in s.usedList;
    FrameChain(s.t, t', s.used, s.usedList);
  }

  lemma MergeMembers(s: Shape, f: nat, m: nat, i: nat)
    requires s.Linked() && s.Tiled() && f + m < |s.freeList|
    requires i + m < |s.tiles| && s.tiles[i..i + m + 1] == s.freeList[f..f + m + 1]
    ensures forall x :: x in Without(s.tiles, i, m) <==> x in Without(s.freeList, f, m) || x in s.usedList
  {
    hide Chain, Tiles;
    TilesDistinct(s.t, s.tiles, s.base, s.top);
    WithoutElements(s.freeList, f, m, Without(s.freeList, f, m));
    WithoutElements(s.tiles, i, m, Without(s.tiles, i, m));
    assert s.tiles[i + 1..i + m + 1] == s.tiles[i..i + m + 1][1..] == s.freeList[f + 1..f + m + 1];
    assert forall x :: x in s.freeList[f + 1..f + m + 1] ==> x in s.freeList;
  }

  /** After a merge that stopped at a gap, one more neighbour pair is known to be apart. */
  lemma MergeApart(s: Shape, f: nat, m: nat, t': Table, r: seq<int>)
    requires NoDup(s.freeList) && Merged(s, f, m, t') && IsWithout(s.freeList, f, m, r)
    requires Apart(s.t, s.freeList, f)
    requires f + m + 1 < |s.freeList| ==> s.t[s.freeList[f + m]].End() != s.t[s.freeList[f + m + 1]].addr
    ensures Apart(t', r, f + 1)
  {
    var F := s.freeList;
    forall k, l | 0 <= k < f + 1 && l == k + 1 && l < |r|
      ensures t'[r[k]].End() != t'[r[l]].addr
    {
      if k < f { MergedOutside(s, f, m, t', k); }
      if l != f { MergedOutside(s, f, m, t', if l < f then l else l + m); }
    }
  }

  /** Pushing a cleared descriptor on the blank list, as release_blocks does. */
  lemma PushBlank(t: Table, head: int, s: seq<int>, x: int)
    requires Chain(t, head, s) && 0 <= x < |t| && x !in s
    ensures Chain(t[x := Block(0, head, 0)], x, [x] + s)
  {
    var t', s' := t[x := Block(0, head, 0)], [x] + s;
    forall k | 0 <= k < |s'|
      ensures 0 <= s'[k] < |t'| && t'[s'[k]].next == Link(s', k + 1)
    {
      if k > 0 {
        assert s'[k] == s[k - 1] && s[k - 1] in s;
        assert t[s[k - 1]].next == Link(s, k);
      }
    }
  }

  /** A stretch of the free list behind position f, and its relation to the blank list. */
  lemma RunElements(s: seq<int>, f: nat, m: nat, blank: seq<int>)
    requires f + m < |s| && NoDup(s) && NULL !in s && Disjoint(s, blank)
    ensures var run := s[f + 1..f + m + 1];
            && NoDup(run) && s[f] !in run && Link(s, f + m + 1) !in run
            && Disjoint(run, blank) && s[f] !in blank && s[f] !in Pushed(run, blank)
  {
    var run := s[f + 1..f + m + 1];
    assert forall i :: 0 <= i < |run| ==> run[i] == s[f + 1 + i];
    assert s[f] in s;
  }

  /** The links of a stretch of a chain. */
  lemma RunLinks(t: Table, head: int, s: seq<int>, f: nat, m: nat)
    requires Chain(t, head, s) && NoDup(s) && f + m < |s| && 0 < m
    ensures var run := s[f + 1..f + m + 1];
            && run != [] && s[f] != s[f + m] && InTable(t, run) && t[s[f]].next == run[0]
                 && t[s[f + m]].next == Link(s, f + m + 1)
            && forall i {:trigger t[run[i]]} :: 0 <= i < |run| ==>
                 t[run[i]].next == if i + 1 < |run| then run[i + 1] else Link(s, f + m + 1)
  {
    var run := s[f + 1..f + m + 1];
    assert t[s[f]].next == Link(s, f + 1);
    assert t[s[f + m]].next == Link(s, f + m + 1);
    forall i | 0 <= i < |run|
      ensures 0 <= run[i] < |t| && t[run[i]].next == if i + 1 < |run| then run[i + 1] else Link(s, f + m + 1)
    {
      assert run[i] == s[f + 1 + i];
      assert t[s[f + 1 + i]].next == Link(s, f + 2 + i);
    }
  }

  /** The table compact leaves when ptr has swallowed the run behind it. */
  lemma MergedTable(s: Shape, f: nat, m: nat, t': Table)
    requires InTable(s.t, s.freeList) && f + m < |s.freeList| && |t'| == |s.t|
    requires forall x :: 0 <= x < |s.t| && x !in s.freeList[f + 1..f + m + 1] && x != s.freeList[f] ==> t'[x] == s.t[x]
    requires var p, last := s.freeList[f], s.freeList[f + m];
             t'[p].addr == s.t[p].addr && t'[p].End() == s.t[last].End() && t'[p].next == Link(s.freeList, f + m + 1)
    ensures Merged(s, f, m, t')
  {
    assert s.freeList[f..f + m + 1] == [s.freeList[f]] + s.freeList[f + 1..f + m + 1];
  }

  lemma ChainInRange(t: Table, head: int, s: seq<int>)
    requires Chain(t, head, s)
    ensures InTable(t, s) && NULL !in s
  {
  }

  /** What compact's loop carries over a merge. */
  lemma AfterMerge(s: Shape, f: nat, m: nat)
    requires s.Loose() && 0 < m && Touching(s.t, s.freeList, f, m) && Apart(s.t, s.freeList, f)
    requires f + m + 1 < |s.freeList| ==> s.t[s.freeList[f + m]].End() != s.t[s.freeList[f + m + 1]].addr
    ensures forall t' {:trigger Merged(s, f, m, t')} :: Merged(s, f, m, t') ==>
              && |t'| == |s.t| && Apart(t', Without(s.freeList, f, m), f + 1)
              && forall x :: x in s.usedList ==> 0 <= x < |s.t| && t'[x] == s.t[x]
    ensures |Without(s.freeList, f, m)| == |s.freeList| - m && Without(s.freeList, f, m)[f] == s.freeList[f]
    ensures !s.Valid()
  {
    WithoutIs(s.freeList, f, m);
    forall t' {:trigger Merged(s, f, m, t')} | Merged(s, f, m, t')
      ensures Apart(t', Without(s.freeList, f, m), f + 1)
      ensures forall x :: x in s.usedList ==> 0 <= x < |s.t| && t'[x] == s.t[x]
    {
      MergeApart(s, f, m, t', Without(s.freeList, f, m));
      MergeUsed(s, f, m, t');
    }
    assert s.t[s.freeList[f]].End() == s.t[s.freeList[f + 1]].addr;
  }

  lemma TouchingNone(t: Table, s: seq<int>, f: nat)
    requires f < |s| && InTable(t, s)
    ensures Touching(t, s, f, 0)
  {
  }

  lemma ApartNone(t: Table, s: seq<int>)
    requires InTable(t, s)
    ensures Apart(t, s, 0)
  {
  }

  lemma ChainHead(t: Table, head: int, s: seq<int>)
    requires Chain(t, head, s)
    ensures head == Link(s, 0)
  {
  }

  /** The parts of the invariant that walking the free list uses. */
  lemma FreeListFacts(s: Shape)
    requires s.Loose()
    ensures Chain(s.t, s.free, s.freeList) && Chain(s.t, s.blank, s.blankList)
    ensures InTable(s.t, s.freeList) && NULL !in s.freeList && NoDup(s.freeList) && Disjoint(s.freeList, s.blankList)
    ensures forall x :: x in s.freeList ==> x in s.tiles
    ensures Ascending(s.t, s.freeList)
    ensures forall x :: x in s.usedList ==> 0 <= x < |s.t| && x !in s.freeList
  {
  }

  lemma LinkAt(t: Table, head: int, s: seq<int>, i: nat)
    requires Chain(t, head, s) && i < |s|
    ensures 0 <= s[i] < |t| && t[s[i]].next == Link(s, i + 1)
  {
  }

  lemma TouchingOrder(t: Table, s: seq<int>, f: nat, m: nat)
    requires Ascending(t, s) && 0 < m && f + m < |s|
    ensures 0 <= s[f] < |t| && 0 <= s[f + m] < |t| && t[s[f]].End() <= t[s[f + m]].addr
  {
  }

  lemma TouchingMore(t: Table, s: seq<int>, f: nat, m: nat)
    requires Touching(t, s, f, m) && f + m + 1 < |s|
    requires t[s[f + m]].End() == t[s[f + m + 1]].addr
    ensures Touching(t, s, f, m + 1)
  {
  }

  lemma AllApart(s: Shape)
    requires s.Loose() && Apart(s.t, s.freeList, |s.freeList|)
    ensures s.Valid()
  {
  }

  lemma NotTouching(t: Table, s: seq<int>, f: nat)
    requires Apart(t, s, f) && f < |s|
    requires f + 1 < |s| ==> t[s[f]].End() != t[s[f + 1]].addr
    ensures Apart(t, s, f + 1)
  {
  }

  lemma ValidIsLoose(s: Shape)
    requires s.Valid()
    ensures s.Loose()
  {
  }
}
