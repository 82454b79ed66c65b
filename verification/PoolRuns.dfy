/**
  Whole runs of the page allocator against a set of chunks: what page_nalloc hands out stays
  the caller's, page by page, until page_free gets it back (src/page.c:131-241).
 */
module PoolRuns {
  import opened Options
  import opened PageAllocator
  import opened PageBits
  import opened PageCells

  /** Pages start..end. */
  datatype Chunk = Chunk(start: nat, end: nat) {
    predicate Apart(other: Chunk) {
      end < other.start || other.end < start
    }
  }

  ghost predicate IsChunk(cells: seq<Cell>, reserved: nat, pages: nat, c: Chunk) {
    && 0 < reserved <= c.start <= c.end < pages <= |cells|
    && cells[c.end] == LAST && (forall i :: c.start <= i < c.end ==> cells[i] == TAKEN)
    && cells[c.start - 1] != TAKEN
  }

  /** The live chunks behind the bookkeeping's own pages. */
  ghost function Chunks(cells: seq<Cell>, reserved: nat, pages: nat): set<Chunk> {
    set s, e | 0 <= s < pages && 0 <= e < pages && IsChunk(cells, reserved, pages, Chunk(s, e)) :: Chunk(s, e)
  }

  lemma ChunksAre(cells: seq<Cell>, reserved: nat, pages: nat, c: Chunk)
    ensures c in Chunks(cells, reserved, pages) <==> IsChunk(cells, reserved, pages, c)
  {
    if IsChunk(cells, reserved, pages, c) {
      assert c == Chunk(c.start, c.end);
    }
  }

  /** Live chunks never overlap. */
  lemma ChunksApart(cells: seq<Cell>, reserved: nat, pages: nat, c: Chunk, d: Chunk)
    requires IsChunk(cells, reserved, pages, c) && IsChunk(cells, reserved, pages, d) && c != d
    ensures c.Apart(d)
  {
    if c.start < d.start <= c.end {
      assert false;
    } else if d.start < c.start <= d.end {
      assert false;
    }
  }

  /** Where the chunk of a taken page begins. */
  function ChunkBegin(cells: seq<Cell>, reserved: nat, i: nat): (s: nat)
    requires 0 < reserved <= i < |cells| && cells[reserved - 1] != TAKEN
    ensures reserved <= s <= i && cells[s - 1] != TAKEN && forall k :: s <= k < i ==> cells[k] == TAKEN
    decreases i
  {
    if cells[i - 1] == TAKEN then ChunkBegin(cells, reserved, i - 1) else i
  }

  /** The pages behind the bookkeeping that are not free are exactly those of the live chunks. */
  lemma ChunksCover(cells: seq<Cell>, reserved: nat, pages: nat, i: nat)
    requires ChunksOk(cells, pages) && 0 < reserved <= i < pages && cells[reserved - 1] != TAKEN
    ensures !IsFree(cells[i]) <==> exists c :: c in Chunks(cells, reserved, pages) && c.start <= i <= c.end
  {
    if !IsFree(cells[i]) {
      LiveChunk(cells, pages, i);
      var c := Chunk(ChunkBegin(cells, reserved, i), ChunkEnd(cells, pages, i));
      assert forall k :: c.start <= k < c.end ==> cells[k] == TAKEN;
      ChunksAre(cells, reserved, pages, c);
    } else {
      forall c | c in Chunks(cells, reserved, pages)
        ensures !(c.start <= i <= c.end)
      {
        ChunksAre(cells, reserved, pages, c);
      }
    }
  }

  /** Marking a run of free pages adds exactly that chunk. */
  lemma MarkAdds(cells: seq<Cell>, reserved: nat, pages: nat, s: nat, e: nat)
    requires ChunksOk(cells, pages) && FreeRun(cells, s, e) && 0 < reserved <= s && e < pages
    ensures Chunk(s, e) !in Chunks(cells, reserved, pages)
    ensures Chunks(Marked(cells, s, e), reserved, pages) == Chunks(cells, reserved, pages) + {Chunk(s, e)}
  {
    MarkOk(cells, pages, s, e);
    var r, added := Marked(cells, s, e), Chunk(s, e);
    assert IsChunk(r, reserved, pages, added);
    forall c
      ensures c in Chunks(r, reserved, pages) <==> c in Chunks(cells, reserved, pages) || c == added
    {
      ChunksAre(r, reserved, pages, c);
      ChunksAre(cells, reserved, pages, c);
      if IsChunk(r, reserved, pages, c) && c != added {
        ChunksApart(r, reserved, pages, c, added);
      }
      if IsChunk(cells, reserved, pages, c) {
        StaysClear(cells, reserved, pages, c, s, e);
      }
    }
    ChunksAre(cells, reserved, pages, added);
    assert IsFree(cells[e]);
  }

  lemma TakenThere(cells: seq<Cell>, reserved: nat, pages: nat, c: Chunk, i: nat)
    requires IsChunk(cells, reserved, pages, c) && c.start <= i <= c.end
    ensures !IsFree(cells[i])
  {
  }

  /** A live chunk holds no free page. */
  lemma StaysClear(cells: seq<Cell>, reserved: nat, pages: nat, c: Chunk, s: nat, e: nat)
    requires IsChunk(cells, reserved, pages, c) && s <= e < |cells| && forall i :: s <= i <= e ==> IsFree(cells[i])
    ensures c.end < s || e < c.start
  {
    if c.start <= s <= c.end {
      TakenThere(cells, reserved, pages, c, s);
      assert false;
    } else if s <= c.start <= e {
      TakenThere(cells, reserved, pages, c, c.start);
      assert false;
    }
  }

  /** Clearing a live chunk removes exactly that one. */
  lemma ClearRemoves(cells: seq<Cell>, reserved: nat, pages: nat, c: Chunk)
    requires IsChunk(cells, reserved, pages, c)
    ensures Chunks(Cleared(cells, c.start, c.end), reserved, pages) == Chunks(cells, reserved, pages) - {c}
  {
    var r := Cleared(cells, c.start, c.end);
    forall d
      ensures d in Chunks(r, reserved, pages) <==> d in Chunks(cells, reserved, pages) && d != c
    {
      ChunksAre(r, reserved, pages, d);
      ChunksAre(cells, reserved, pages, d);
      if IsChunk(cells, reserved, pages, d) && d != c {
        ChunksApart(cells, reserved, pages, c, d);
      }
      if IsChunk(r, reserved, pages, d) {
        StaysClear(r, reserved, pages, d, c.start, c.end);
      }
    }
  }

  /** Take allocates n pages; GiveBack frees what call number `call` returned. */
  datatype Op = Take(n: int) | GiveBack(call: nat)

  /** Nothing is given back before it was asked for, or twice. */
  ghost predicate WellUsed(ops: seq<Op>) {
    && (forall i :: 0 <= i < |ops| && ops[i].GiveBack? ==> ops[i].call < i && ops[ops[i].call].Take?)
    && (forall i, j :: 0 <= i < j < |ops| && ops[i].GiveBack? && ops[j].GiveBack? ==> ops[i].call != ops[j].call)
  }

  ghost predicate GivenBack(ops: seq<Op>, n: nat, k: nat) {
    exists i :: 0 <= i < n && i < |ops| && ops[i] == GiveBack(k)
  }

  /** What a call does: c is the chunk it handed out or got back, None if there was none. */
  ghost predicate Serves(pool: PagePool, cells: seq<Cell>, op: Op, c: Option<Chunk>, cells': seq<Cell>)
    requires pool.pages <= |cells|
  {
    var live, live' := Chunks(cells, pool.reserved, pool.pages), Chunks(cells', pool.reserved, pool.pages);
    match c
    case None => live' == live && (op.Take? ==> op.n <= 0 || FreeBelow(cells, pool.pages) < op.n)
    case Some(chunk) =>
      if op.GiveBack? then chunk in live && live' == live - {chunk}
      else
        && chunk !in live && live' == live + {chunk} && (forall d :: d in live ==> d.Apart(chunk))
        && 0 < op.n <= FreeBelow(cells, pool.pages)
        && (chunk.end - chunk.start + 1 == op.n <==> FirstFreeTogether(cells, pool.pages, op.n))
  }

  /** The address a call returned: that of the first page of its chunk, or NULL. */
  predicate Returned(pool: PagePool, p: nat, c: Option<Chunk>) {
    && (p == 0 <==> c.None?)
    && (c.Some? ==> p == pool.heapStart + c.value.start * PAGE_SIZE)
  }

  method TakeChunk(pool: PagePool, n: int) returns (p: nat, ghost c: Option<Chunk>)
    requires pool.Ok()
    modifies pool.book
    ensures pool.Ok() && |pool.View()| == |old(pool.View())| && pool.pages <= |old(pool.View())|
    ensures Serves(pool, old(pool.View()), Take(n), c, pool.View())
    ensures Returned(pool, p, c)
  {
    hide Cells, ChunksOk, FreeBelow, FirstFreeTogether, Chunks;
    ghost var cells := pool.View();
    pool.ViewLength();
    ghost var s: nat, e: nat;
    p, s, e := pool.Nalloc(n);
    c := None;
    if p != 0 {
      c := Some(Chunk(s, e));
      MarkAdds(cells, pool.reserved, pool.pages, s, e);
      forall d | d in Chunks(cells, pool.reserved, pool.pages)
        ensures d.Apart(Chunk(s, e))
      {
        ChunksAre(cells, pool.reserved, pool.pages, d);
        StaysClear(cells, pool.reserved, pool.pages, d, s, e);
      }
    }
  }

  method ReturnChunk(pool: PagePool, p: nat, ghost op: Op, ghost c: Option<Chunk>)
    requires pool.Ok() && op.GiveBack?
    requires Returned(pool, p, c)
    requires c.Some? ==> c.value in Chunks(pool.View(), pool.reserved, pool.pages)
    modifies pool.book
    ensures pool.Ok() && |pool.View()| == |old(pool.View())| && pool.pages <= |old(pool.View())|
    ensures Serves(pool, old(pool.View()), op, c, pool.View())
  {
    hide Cells, ChunksOk, FreeBelow, FirstFreeTogether, Chunks, IsChunk, Cleared, ChunkStart;
    ghost var cells := pool.View();
    pool.ViewLength();
    if c.Some? {
      ChunksAre(cells, pool.reserved, pool.pages, c.value);
      EndOfChunk(cells, pool.reserved, pool.pages, c.value);
      pool.AddressIndex(c.value.start);
      ReleaseOk(cells, pool.pages, c.value.start);
      ClearRemoves(cells, pool.reserved, pool.pages, c.value);
    }
    pool.Free(p);
  }

  lemma EndOfChunk(cells: seq<Cell>, reserved: nat, pages: nat, c: Chunk)
    requires IsChunk(cells, reserved, pages, c)
    ensures ChunkEnd(cells, pages, c.start) == c.end && ChunkStart(cells, pages, c.start)
    ensures 0 < reserved <= c.start <= c.end < pages <= |cells|
  {
  }

  /** The chunks handed out by the first n calls and not given back yet are live, and all different. */
  ghost predicate Held(ops: seq<Op>, n: nat, addrs: seq<nat>, chunks: seq<Option<Chunk>>, pool: PagePool,
                       cells: seq<Cell>)
  {
    && n <= |ops| && |addrs| == |chunks| == n
    && (forall k :: 0 <= k < n && ops[k].Take? ==> Returned(pool, addrs[k], chunks[k]))
    && (forall k :: 0 <= k < n && Open(ops, n, chunks, k) ==>
          chunks[k].value in Chunks(cells, pool.reserved, pool.pages))
    && (forall k, l :: 0 <= k < l < n && Open(ops, n, chunks, k) && Open(ops, n, chunks, l) ==> chunks[k] != chunks[l])
  }

  ghost predicate Open(ops: seq<Op>, n: nat, chunks: seq<Option<Chunk>>, k: nat)
    requires k < |ops| && k < |chunks|
  {
    ops[k].Take? && chunks[k].Some? && !GivenBack(ops, n, k)
  }

  lemma GivenBackLater(ops: seq<Op>, n: nat, k: nat)
    ensures GivenBack(ops, n, k) ==> GivenBack(ops, n + 1, k)
  {
  }

  lemma HeldTake(ops: seq<Op>, n: nat, addrs: seq<nat>, chunks: seq<Option<Chunk>>, pool: PagePool,
                 cells: seq<Cell>, cells': seq<Cell>, p: nat, c: Option<Chunk>)
    requires Held(ops, n, addrs, chunks, pool, cells) && n < |ops| && ops[n].Take? && pool.pages <= |cells|
    requires Serves(pool, cells, ops[n], c, cells') && Returned(pool, p, c)
    ensures Held(ops, n + 1, addrs + [p], chunks + [c], pool, cells')
  {
    hide Chunks, FreeBelow, FirstFreeTogether, Returned;
    var chunks' := chunks + [c];
    forall k | 0 <= k < n && Open(ops, n + 1, chunks', k)
      ensures Open(ops, n, chunks, k)
    {
      GivenBackLater(ops, n, k);
    }
  }

  lemma HeldGiveBack(ops: seq<Op>, n: nat, addrs: seq<nat>, chunks: seq<Option<Chunk>>, pool: PagePool,
                     cells: seq<Cell>, cells': seq<Cell>)
    requires Held(ops, n, addrs, chunks, pool, cells) && n < |ops| && ops[n].GiveBack? && WellUsed(ops)
    requires pool.pages <= |cells| && Serves(pool, cells, ops[n], chunks[ops[n].call], cells')
    ensures Held(ops, n + 1, addrs + [0], chunks + [chunks[ops[n].call]], pool, cells')
  {
    hide Chunks, FreeBelow, FirstFreeTogether, Returned;
    var call := ops[n].call;
    var chunks' := chunks + [chunks[call]];
    StillOpen(ops, n, chunks);
    assert GivenBack(ops, n + 1, call);
    forall k | 0 <= k < n && Open(ops, n + 1, chunks', k)
      ensures Open(ops, n, chunks, k) && k != call
    {
      GivenBackLater(ops, n, k);
    }
  }

  lemma StillOpen(ops: seq<Op>, n: nat, chunks: seq<Option<Chunk>>)
    requires WellUsed(ops) && n < |ops| && ops[n].GiveBack? && |chunks| == n
    ensures ops[n].call < n && ops[ops[n].call].Take? && !GivenBack(ops, n, ops[n].call)
  {
  }

  /** Call number |addrs| of such a sequence. */
  method Perform(pool: PagePool, ops: seq<Op>, addrs: seq<nat>, ghost chunks: seq<Option<Chunk>>)
    returns (p: nat, ghost c: Option<Chunk>)
    requires pool.Ok() && WellUsed(ops) && |addrs| < |ops| && Held(ops, |addrs|, addrs, chunks, pool, pool.View())
    modifies pool.book
    ensures pool.Ok() && |pool.View()| == |old(pool.View())| && pool.pages <= |old(pool.View())|
    ensures Held(ops, |addrs| + 1, addrs + [p], chunks + [c], pool, pool.View())
    ensures Serves(pool, old(pool.View()), ops[|addrs|], c, pool.View())
    ensures ops[|addrs|].Take? ==> Returned(pool, p, c)
    ensures ops[|addrs|].GiveBack? ==> ops[|addrs|].call < |addrs| == |chunks| && c == chunks[ops[|addrs|].call]
  {
    hide Cells, ChunksOk, Serves, WellUsed, Returned, Chunks;
    ghost var n, cells := |addrs|, pool.View();
    pool.ViewLength();
    match ops[|addrs|] {
      case Take(k) =>
        p, c := TakeChunk(pool, k);
        HeldTake(ops, n, addrs, chunks, pool, cells, pool.View(), p, c);
      case GiveBack(call) =>
        StillOpen(ops, n, chunks);
        HeldChunk(ops, n, addrs, chunks, pool, cells);
        ReturnChunk(pool, addrs[call], ops[n], chunks[call]);
        HeldGiveBack(ops, n, addrs, chunks, pool, cells, pool.View());
        p, c := 0, chunks[call];
    }
  }

  /** The first n calls, with the bookkeeping before and after each, did what they should. */
  ghost predicate Served(pool: PagePool, ops: seq<Op>, n: nat, addrs: seq<nat>, chunks: seq<Option<Chunk>>,
                         trace: seq<seq<Cell>>)
  {
    && n == |addrs| == |chunks| <= |ops| && |trace| == n + 1
    && (forall i :: 0 <= i <= n ==> pool.pages <= |trace[i]|)
    && (forall i, j :: 0 <= i < n && j == i + 1 ==> Serves(pool, trace[i], ops[i], chunks[i], trace[j]))
    && (forall i :: 0 <= i < n && ops[i].GiveBack? ==> ops[i].call < i && chunks[i] == chunks[ops[i].call])
    && (forall i :: 0 <= i < n && ops[i].Take? ==> Returned(pool, addrs[i], chunks[i]))
  }

  lemma ServedMore(pool: PagePool, ops: seq<Op>, n: nat, addrs: seq<nat>, chunks: seq<Option<Chunk>>,
                   trace: seq<seq<Cell>>, p: nat, c: Option<Chunk>, cells: seq<Cell>)
    requires Served(pool, ops, n, addrs, chunks, trace) && n < |ops| && pool.pages <= |cells|
    requires pool.pages <= |trace[n]| && Serves(pool, trace[n], ops[n], c, cells)
    requires ops[n].Take? ==> Returned(pool, p, c)
    requires ops[n].GiveBack? ==> ops[n].call < n && c == chunks[ops[n].call]
    ensures Served(pool, ops, n + 1, addrs + [p], chunks + [c], trace + [cells])
  {
    hide Serves, Returned;
  }

  /**
    Any well-used sequence of page_nalloc and page_free keeps the bookkeeping in order; every
    call adds exactly one chunk, removes exactly the one given back, or changes nothing.
   */
  method Run(pool: PagePool, ops: seq<Op>)
    returns (addrs: seq<nat>, ghost chunks: seq<Option<Chunk>>, ghost trace: seq<seq<Cell>>)
    requires pool.Ok() && WellUsed(ops)
    modifies pool.book
    ensures pool.Ok() && Served(pool, ops, |ops|, addrs, chunks, trace)
    ensures trace[0] == old(pool.View()) && trace[|ops|] == pool.View()
  {
    hide Cells, ChunksOk, Serves, WellUsed, Held, Returned, Served, Chunks;
    addrs, chunks, trace := [], [], [pool.View()];
    pool.ViewLength();
    NothingHeld(ops, pool, pool.View());
    NothingServed(ops, pool, pool.View());
    for n := 0 to |ops|
      invariant pool.Ok() && n == |addrs| && |trace| == n + 1
      invariant trace[0] == old(pool.View()) && trace[n] == pool.View()
      invariant Held(ops, n, addrs, chunks, pool, pool.View()) && Served(pool, ops, n, addrs, chunks, trace)
    {
      var p;
      ghost var c;
      pool.ViewLength();
      p, c := Perform(pool, ops, addrs, chunks);
      ServedMore(pool, ops, n, addrs, chunks, trace, p, c, pool.View());
      addrs, chunks, trace := addrs + [p], chunks + [c], trace + [pool.View()];
    }
  }

  lemma NothingServed(ops: seq<Op>, pool: PagePool, cells: seq<Cell>)
    requires pool.pages <= |cells|
    ensures Served(pool, ops, 0, [], [], [cells])
  {
  }

  lemma NothingHeld(ops: seq<Op>, pool: PagePool, cells: seq<Cell>)
    ensures Held(ops, 0, [], [], pool, cells)
  {
  }

  lemma HeldChunk(ops: seq<Op>, n: nat, addrs: seq<nat>, chunks: seq<Option<Chunk>>, pool: PagePool, cells: seq<Cell>)
    requires Held(ops, n, addrs, chunks, pool, cells) && n < |ops| && ops[n].GiveBack? && WellUsed(ops)
    ensures ops[n].call < n && Returned(pool, addrs[ops[n].call], chunks[ops[n].call])
    ensures var c := chunks[ops[n].call];
            c.Some? ==> c.value in Chunks(cells, pool.reserved, pool.pages)
  {
    hide Chunks;
    StillOpen(ops, n, chunks);
  }
}
