/**
  What page_nalloc and page_free do to the per-page sequence of cells, and which of the
  allocator's promises that keeps (src/page.c:131-241).
 */
module PageCells {
  import opened PageBits

  predicate IsFree(c: Cell) {
    c < 2
  }

  function FreeBelow(cells: seq<Cell>, i: nat): nat
    requires i <= |cells|
  {
    if i == 0 then 0 else FreeBelow(cells, i - 1) + if IsFree(cells[i - 1]) then 1 else 0
  }

  /** Pages s..e are all free and s is where that run of free pages begins. */
  ghost predicate FreeRun(cells: seq<Cell>, s: nat, e: nat) {
    && s <= e < |cells|
    && (forall i :: s <= i <= e ==> IsFree(cells[i]))
    && (s == 0 || !IsFree(cells[s - 1]))
  }

  /** e is the n-th free page and s the start of its run of free pages. */
  ghost predicate Picks(cells: seq<Cell>, n: nat, s: nat, e: nat) {
    FreeRun(cells, s, e) && FreeBelow(cells, e + 1) == n
  }

  function Marked(cells: seq<Cell>, s: nat, e: nat): (r: seq<Cell>)
    requires s <= e < |cells|
    ensures |r| == |cells|
    ensures forall i :: 0 <= i < |r| ==>
              r[i] == if i == e then cells[i] | LAST else if s <= i < e then cells[i] | TAKEN else cells[i]
  {
    seq(|cells|, i requires 0 <= i < |cells| =>
      if i == e then cells[i] | LAST else if s <= i < e then cells[i] | TAKEN else cells[i])
  }

  /** Pages s..e cleared. */
  function Cleared(cells: seq<Cell>, s: nat, e: nat): (r: seq<Cell>)
    requires s <= e < |cells|
    ensures |r| == |cells|
    ensures forall i :: 0 <= i < |r| ==> r[i] == if s <= i <= e then FREE else cells[i]
  {
    seq(|cells|, i requires 0 <= i < |cells| => if s <= i <= e then FREE else cells[i])
  }

  /** Where page_free stops: the first LAST page from p on, or the last page there is. */
  function ChunkEnd(cells: seq<Cell>, pages: nat, p: nat): (e: nat)
    requires p < pages <= |cells|
    ensures p <= e < pages
    ensures forall i :: p <= i < e ==> cells[i] != LAST
    ensures cells[e] == LAST || e == pages - 1
    decreases pages - p
  {
    if cells[p] == LAST || p == pages - 1 then p else ChunkEnd(cells, pages, p + 1)
  }

  /** page_free of page p: refused inside a chunk, otherwise clears up to the chunk's end. */
  function Released(cells: seq<Cell>, pages: nat, p: nat): seq<Cell>
    requires 0 < p < pages <= |cells|
  {
    if cells[p - 1] == TAKEN then cells else Cleared(cells, p, ChunkEnd(cells, pages, p))
  }

  /** Every cell is FREE, TAKEN or LAST, and a TAKEN page is followed by a taken one. */
  ghost predicate ChunksOk(cells: seq<Cell>, pages: nat) {
    && pages <= |cells|
    && (forall i :: 0 <= i < |cells| ==> cells[i] == FREE || cells[i] == TAKEN || cells[i] == LAST)
    && (pages > 0 ==> cells[pages - 1] != TAKEN)
    && (forall i, j :: 0 <= i && j == i + 1 && j < pages && cells[i] == TAKEN ==> !IsFree(cells[j]))
  }

  /** p is the first page of an allocated chunk. */
  ghost predicate ChunkStart(cells: seq<Cell>, pages: nat, p: nat) {
    0 < p < pages <= |cells| && !IsFree(cells[p]) && cells[p - 1] != TAKEN
  }

  lemma FreeBelowNone(cells: seq<Cell>)
    ensures FreeBelow(cells, 0) == 0
  {
  }

  lemma FreeBelowNext(cells: seq<Cell>, i: nat)
    requires i < |cells|
    ensures FreeBelow(cells, i + 1) == FreeBelow(cells, i) + if IsFree(cells[i]) then 1 else 0
  {
  }

  lemma {:induction false} FreeBelowMonotone(cells: seq<Cell>, i: nat, j: nat)
    requires i <= j <= |cells|
    ensures FreeBelow(cells, i) <= FreeBelow(cells, j)
    decreases j
  {
    if i < j {
      FreeBelowMonotone(cells, i, j - 1);
    }
  }

  lemma {:induction false} RunCount(cells: seq<Cell>, s: nat, e: nat)
    requires s <= e < |cells| && forall i :: s <= i <= e ==> IsFree(cells[i])
    ensures FreeBelow(cells, e + 1) == FreeBelow(cells, s) + (e - s + 1)
    decreases e
  {
    if s < e {
      RunCount(cells, s, e - 1);
    }
  }

  /** There is only one choice. */
  lemma PicksUnique(cells: seq<Cell>, n: nat, s: nat, e: nat, s': nat, e': nat)
    requires Picks(cells, n, s, e) && Picks(cells, n, s', e')
    ensures s == s' && e == e'
  {
    if e < e' {
      FreeBelowMonotone(cells, e + 1, e');
      assert false;
    }
    if e' < e {
      FreeBelowMonotone(cells, e' + 1, e);
      assert false;
    }
  }

  /**
    The counter of page_nalloc is not reset at taken pages, so the chunk has the n pages that
    were asked for if and only if no free page lies before it.
   */
  lemma ChunkSize(cells: seq<Cell>, n: nat, s: nat, e: nat)
    requires Picks(cells, n, s, e)
    ensures e - s + 1 == n - FreeBelow(cells, s)
    ensures e - s + 1 == n <==> FreeBelow(cells, s) == 0
    ensures n == 1 ==> s == e
  {
    RunCount(cells, s, e);
  }

  /** The first n free pages below `pages` follow one another. */
  ghost predicate FirstFreeTogether(cells: seq<Cell>, pages: nat, n: nat)
    requires pages <= |cells|
  {
    exists f: nat :: f + n <= pages && FreeBelow(cells, f) == 0 && forall i :: f <= i < f + n ==> IsFree(cells[i])
  }

  /**
    What a caller can check before the call: page_nalloc gives the n pages that were asked for
    if and only if the first n free pages are contiguous.
   */
  lemma WholeChunk(cells: seq<Cell>, pages: nat, n: nat, s: nat, e: nat)
    requires e < pages <= |cells| && Picks(cells, n, s, e)
    ensures e - s + 1 == n <==> FirstFreeTogether(cells, pages, n)
  {
    ChunkSize(cells, n, s, e);
    if e - s + 1 == n {
      assert FreeBelow(cells, s) == 0 && forall i :: s <= i < s + n ==> IsFree(cells[i]);
    }
    if FirstFreeTogether(cells, pages, n) {
      var f: nat :| f + n <= pages && FreeBelow(cells, f) == 0 && forall i :: f <= i < f + n ==> IsFree(cells[i]);
      assert n > 0 by { FreeBelowNext(cells, e); }
      RunCount(cells, f, f + n - 1);
      FirstFreeUnique(cells, n, f, s, e);
    }
  }

  /** Nothing else can be picked than the run of the first n free pages. */
  lemma FirstFreeUnique(cells: seq<Cell>, n: nat, f: nat, s: nat, e: nat)
    requires Picks(cells, n, s, e) && f + n <= |cells| && n > 0
    requires FreeBelow(cells, f) == 0 && FreeBelow(cells, f + n) == n
    requires forall i :: f <= i < f + n ==> IsFree(cells[i])
    ensures FreeBelow(cells, s) == 0
  {
    if f < s {
      if s < f + n {
        assert false;
      } else {
        FreeBelowMonotone(cells, f + n, s);
        FreeBelowMonotone(cells, s, e);
        FreeBelowNext(cells, e);
        assert false;
      }
    } else {
      FreeBelowMonotone(cells, s, f);
    }
  }

  /** Without n free pages there is no such run. */
  lemma TogetherNeedsPages(cells: seq<Cell>, pages: nat, n: nat)
    requires pages <= |cells| && FirstFreeTogether(cells, pages, n)
    ensures FreeBelow(cells, pages) >= n
  {
    var f: nat :| f + n <= pages && FreeBelow(cells, f) == 0 && forall i :: f <= i < f + n ==> IsFree(cells[i]);
    if n > 0 {
      RunCount(cells, f, f + n - 1);
      FreeBelowMonotone(cells, f + n, pages);
    }
  }

  /** Two pages asked for, one page given. */
  lemma ShortChunk()
    ensures var cells: seq<Cell> := [LAST, FREE, LAST, FREE];
            ChunksOk(cells, 4) && Picks(cells, 2, 3, 3) && !FirstFreeTogether(cells, 4, 2)
  {
    var cells: seq<Cell> := [LAST, FREE, LAST, FREE];
    FreeBelowNone(cells);
    FreeBelowNext(cells, 0);
    FreeBelowNext(cells, 1);
    FreeBelowNext(cells, 2);
    FreeBelowNext(cells, 3);
    hide FreeBelow;
    WholeChunk(cells, 4, 2, 3, 3);
  }

  lemma BeforeFree(cells: seq<Cell>, pages: nat, p: nat)
    requires ChunksOk(cells, pages) && 0 < p < pages && IsFree(cells[p])
    ensures cells[p - 1] != TAKEN
  {
  }

  /** Allocating keeps the chunk structure and touches only free pages. */
  lemma MarkOk(cells: seq<Cell>, pages: nat, s: nat, e: nat)
    requires ChunksOk(cells, pages) && FreeRun(cells, s, e) && e < pages
    ensures ChunksOk(Marked(cells, s, e), pages)
    ensures forall i :: s <= i <= e ==> cells[i] == FREE
    ensures forall i :: s <= i < e ==> Marked(cells, s, e)[i] == TAKEN
    ensures Marked(cells, s, e)[e] == LAST
    ensures 0 < s ==> ChunkStart(Marked(cells, s, e), pages, s)
  {
    var r := Marked(cells, s, e);
    forall i | s <= i <= e
      ensures cells[i] == FREE && r[i] == if i == e then LAST else TAKEN
    {
      assert IsFree(cells[i]);
    }
    forall i, j | 0 <= i && j == i + 1 && j < pages && r[i] == TAKEN
      ensures !IsFree(r[j])
    {
    }
    if 0 < s {
      BeforeFree(cells, pages, s);
    }
  }

  /** A live chunk ends at its own LAST page, with only TAKEN pages before it. */
  lemma {:induction false} LiveChunk(cells: seq<Cell>, pages: nat, p: nat)
    requires ChunksOk(cells, pages) && p < pages && !IsFree(cells[p])
    ensures var e := ChunkEnd(cells, pages, p);
            cells[e] == LAST && forall i :: p <= i < e ==> cells[i] == TAKEN
    decreases pages - p
  {
    if cells[p] != LAST && p != pages - 1 {
      assert cells[p] == TAKEN;
      assert !IsFree(cells[p + 1]);
      LiveChunk(cells, pages, p + 1);
    }
  }

  /** Freeing a live chunk keeps the chunk structure and frees nothing but the chunk. */
  lemma ReleaseOk(cells: seq<Cell>, pages: nat, p: nat)
    requires ChunksOk(cells, pages) && ChunkStart(cells, pages, p)
    ensures var e := ChunkEnd(cells, pages, p);
            && Released(cells, pages, p) == Cleared(cells, p, e)
            && ChunksOk(Released(cells, pages, p), pages)
            && cells[e] == LAST && forall i :: p <= i < e ==> cells[i] == TAKEN
  {
    LiveChunk(cells, pages, p);
    var e := ChunkEnd(cells, pages, p);
    var r := Cleared(cells, p, e);
    forall i, j | 0 <= i && j == i + 1 && j < pages && r[i] == TAKEN
      ensures !IsFree(r[j])
    {
      assert cells[i] == TAKEN;
    }
  }

  /** Releasing any page but the first keeps the chunk structure, whether it starts a chunk or not. */
  lemma ReleasedChunks(cells: seq<Cell>, pages: nat, p: nat)
    requires ChunksOk(cells, pages) && 0 < p < pages
    ensures ChunksOk(Released(cells, pages, p), pages)
  {
    if cells[p - 1] != TAKEN {
      var r := Cleared(cells, p, ChunkEnd(cells, pages, p));
      forall i, j | 0 <= i && j == i + 1 && j < pages && r[i] == TAKEN
        ensures !IsFree(r[j])
      {
        assert cells[i] == TAKEN;
      }
    }
  }

  /** Freeing what page_nalloc returned undoes it cell by cell. */
  lemma AllocThenFree(cells: seq<Cell>, pages: nat, s: nat, e: nat)
    requires ChunksOk(cells, pages) && FreeRun(cells, s, e) && 0 < s && e < pages
    ensures Released(Marked(cells, s, e), pages, s) == cells
  {
    MarkOk(cells, pages, s, e);
    var r := Marked(cells, s, e);
    ReleaseOk(r, pages, s);
    var f := ChunkEnd(r, pages, s);
    assert r[e] == LAST;
    assert e == f;
  }

  /**
    page_free does not check that the page is allocated.  Given a free page it clears on to
    the next LAST page: harmless if and only if no page behind it is allocated.
   */
  lemma FreeingAFreePage(cells: seq<Cell>, pages: nat, p: nat)
    requires ChunksOk(cells, pages) && 0 < p < pages && IsFree(cells[p])
    ensures Released(cells, pages, p) == cells <==> forall i :: p <= i < pages ==> IsFree(cells[i])
  {
    var e := ChunkEnd(cells, pages, p);
    BeforeFree(cells, pages, p);
    var r := Cleared(cells, p, e);
    if forall i :: p <= i < pages ==> IsFree(cells[i]) {
      forall i | 0 <= i < |cells|
        ensures r[i] == cells[i]
      {
        assert p <= i <= e ==> IsFree(cells[i]);
      }
      assert r == cells;
    } else {
      var i :| p <= i < pages && !IsFree(cells[i]);
      LiveChunk(cells, pages, i);
      var f := ChunkEnd(cells, pages, i);
      assert cells[f] == LAST && f >= e;
      assert r[e] != cells[e];
    }
  }

  /** The two counts of the allocator always add up. */
  lemma {:induction false} CountsAddUp(cells: seq<Cell>, i: nat)
    requires i <= |cells|
    ensures FreeBelow(cells, i) + TakenBelow(cells, i) == i
  {
    if i > 0 {
      CountsAddUp(cells, i - 1);
    }
  }

  function TakenBelow(cells: seq<Cell>, i: nat): nat
    requires i <= |cells|
  {
    if i == 0 then 0 else TakenBelow(cells, i - 1) + if IsFree(cells[i - 1]) then 0 else 1
  }

  /** Freeing free page 1 takes live page 2 from its owner. */
  lemma FreedElsewhere()
    ensures var cells: seq<Cell> := [LAST, FREE, LAST, FREE];
            && ChunksOk(cells, 4) && IsFree(cells[1]) && ChunkStart(cells, 4, 2)
            && Released(cells, 4, 1) == [LAST, FREE, FREE, FREE]
  {
    var cells: seq<Cell> := [LAST, FREE, LAST, FREE];
    assert ChunkEnd(cells, 4, 2) == 2;
    assert ChunkEnd(cells, 4, 1) == 2;
    assert Cleared(cells, 1, 2) == [LAST, FREE, FREE, FREE];
  }
}
