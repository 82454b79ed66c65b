/**
  The page allocator (src/page.c): a packed array of bookkeeping bytes at the start of the
  page heap, scanned and changed in place.
 */
module PageAllocator {
  import opened Arithmetic
  import opened PageBits
  import opened PageCells

  /** How many bookkeeping bytes page_init reserves (src/page.c:86). */
  function BookSize(pages: nat): nat {
    RoundUp(pages / 4, PAGE_SIZE)
  }

  /**
    page_init rounds pages/4 down before it aligns it up.  The last page's bits lie inside the
    reserved bytes if and only if that loses nothing or the alignment makes up for it.
   */
  lemma BookHoldsAllPages(pages: nat)
    requires pages > 0
    ensures (pages - 1) / 4 < BookSize(pages) <==> pages % 4 == 0 || (pages / 4) % PAGE_SIZE != 0
    ensures pages <= 4 * BookSize(pages) <==> (pages - 1) / 4 < BookSize(pages)
  {
    var q := pages / 4;
    var k, r := q / PAGE_SIZE, q % PAGE_SIZE;
    assert q == k * PAGE_SIZE + r;
    if r == 0 {
      assert (q + PAGE_SIZE - 1) / PAGE_SIZE == k;
    } else {
      assert (q + PAGE_SIZE - 1) / PAGE_SIZE == k + 1;
    }
  }

  /** The page counts for which page_init reserves enough. */
  predicate BookFits(pages: nat) {
    pages > 0 && (pages % 4 == 0 || (pages / 4) % PAGE_SIZE != 0)
  }

  lemma BookFacts(pages: nat)
    ensures var reserved := BookSize(pages) / PAGE_SIZE;
            && reserved <= pages && reserved <= BookSize(pages)
            && (BookFits(pages) <==> reserved > 0 && pages <= 4 * BookSize(pages))
  {
    BookPages(pages);
    if pages > 0 { BookHoldsAllPages(pages); }
  }

  /** The bookkeeping is whole pages, and no more of them than there are pages. */
  lemma BookPages(pages: nat)
    ensures BookSize(pages) % PAGE_SIZE == 0 && BookSize(pages) / PAGE_SIZE <= pages
    ensures BookSize(pages) > 0 <==> pages >= 4
  {
    var q := pages / 4;
    var k, r := q / PAGE_SIZE, q % PAGE_SIZE;
    assert q == k * PAGE_SIZE + r;
    if r == 0 {
      assert (q + PAGE_SIZE - 1) / PAGE_SIZE == k;
    } else {
      assert (q + PAGE_SIZE - 1) / PAGE_SIZE == k + 1;
    }
  }

  lemma FreshBits()
    ensures FREE | LAST == LAST
  {
  }

  lemma FreshChunks(cells: seq<Cell>, reserved: nat, pages: nat)
    requires reserved <= pages <= |cells|
    requires forall i :: 0 <= i < |cells| ==> cells[i] == if i < reserved then LAST else FREE
    ensures ChunksOk(cells, pages)
  {
  }

  /** Physical memory ends far below this address. */
  const HIGHEST := 0x800_0000_0000

  /** 16385 pages get 4096 bookkeeping bytes, and the last page's bits lie behind them. */
  lemma BookTooSmall()
    ensures BookSize(16385) <= (16385 - 1) / 4
  {
    BookHoldsAllPages(16385);
    hide BookSize;
  }

  class PagePool {
    const book: array<bv8>
    const heapStart: nat
    const pages: nat
    const reserved: nat

    ghost function View(): seq<Cell>
      reads book
    {
      Cells(book[..])
    }

    /** The chunks are well formed and the bookkeeping's own pages stay taken. */
    ghost predicate Ok()
      reads book
    {
      && 0 < reserved <= pages <= 4 * book.Length && ChunksOk(View(), pages)
      && (forall i :: 0 <= i < reserved ==> View()[i] == LAST)
      && 0 < heapStart < HIGHEST && heapStart % PAGE_SIZE == 0
    }

    lemma ViewLength()
      ensures |View()| == 4 * book.Length
    {
    }

    /** bk_test (src/page.c:23-31). */
    method Test(i: nat) returns (c: Cell)
      requires i < 4 * book.Length
      ensures i < |View()| && c == View()[i]
    {
      c := Get(book[i / 4], i % 4);
    }

    /** bk_set (src/page.c:39-47). */
    method Set(i: nat, last: bool)
      requires i < 4 * book.Length
      modifies book
      ensures |View()| == |old(View())| == 4 * book.Length
      ensures View() == old(View())[i := old(View())[i] | (if last then LAST else TAKEN)]
    {
      OrCells(book[..], i, if last then LAST else TAKEN);
      ghost var b := book[..];
      book[i / 4] := Or(book[i / 4], i % 4, if last then LAST else TAKEN);
      assert book[..] == b[i / 4 := Or(b[i / 4], i % 4, if last then LAST else TAKEN)];
    }

    /** bk_clear (src/page.c:54-62). */
    method Clear(i: nat)
      requires i < 4 * book.Length
      modifies book
      ensures |View()| == |old(View())| == 4 * book.Length
      ensures View() == old(View())[i := FREE]
    {
      MaskCells(book[..], i);
      ghost var b := book[..];
      book[i / 4] := Mask(book[i / 4], i % 4);
      assert book[..] == b[i / 4 := Mask(b[i / 4], i % 4)];
    }

    /**
      page_init (src/page.c:80-129).  The bookkeeping is in order exactly when it has room for
      every page.
     */
    constructor (heapStart: nat, pages: nat)
      requires 0 < heapStart < HIGHEST && heapStart % PAGE_SIZE == 0
      ensures fresh(book) && this.heapStart == heapStart && this.pages == pages
      ensures book.Length == BookSize(pages) && reserved == BookSize(pages) / PAGE_SIZE
      ensures forall i :: 0 <= i < |View()| ==> View()[i] == if i < reserved then LAST else FREE
      ensures Ok() <==> BookFits(pages)
    {
      book := new bv8[BookSize(pages)](_ => 0);
      this.heapStart, this.pages, reserved := heapStart, pages, BookSize(pages) / PAGE_SIZE;
      new;
      hide Cells, ChunksOk, BookSize, BookFits;
      BookFacts(pages);
      ViewLength();
      AllFree(book[..]);
      TakeOwnPages();
      if reserved <= pages <= |View()| { FreshChunks(View(), reserved, pages); }
    }

    /** page_init marks the pages of the bookkeeping itself (src/page.c:105-107). */
    method TakeOwnPages()
      requires reserved <= 4 * book.Length && forall i :: 0 <= i < |View()| ==> View()[i] == FREE
      modifies book
      ensures |View()| == 4 * book.Length
      ensures forall i :: 0 <= i < |View()| ==> View()[i] == if i < reserved then LAST else FREE
    {
      hide Cells;
      ViewLength();
      FreshBits();
      var i := 0;
      while i < reserved
        invariant 0 <= i <= reserved && |View()| == 4 * book.Length
        invariant forall j :: 0 <= j < |View()| ==> View()[j] == if j < i then LAST else FREE
      {
        Set(i, true);
        i := i + 1;
      }
    }

    /** The scan of page_nalloc (src/page.c:141-174): the pages to take, or start == -1. */
    method Scan(n: nat) returns (start: int, end: int)
      requires Ok() && n > 0
      ensures end == -1 <==> FreeBelow(View(), pages) < n
      ensures end != -1 ==> 0 <= start <= end < pages && Picks(View(), n, start, end)
    {
      hide Cells, ChunksOk, FreeBelow;
      ViewLength();
      FreeBelowNone(View());
      start, end := -1, -1;
      var pagesFree := 0;
      var i := 0;
      while i < pages
        invariant 0 <= i <= pages && pagesFree == FreeBelow(View(), i) < n
        invariant start == -1 ==> i == 0 || !IsFree(View()[i - 1])
        invariant start != -1 ==> 0 <= start < i && FreeRun(View(), start, i - 1)
        invariant end == -1
      {
        var c := Test(i);
        FreeBelowNext(View(), i);
        if c >= 2 {
          start := -1;
        } else {
          if start == -1 { start := i; }
          pagesFree := pagesFree + 1;
          if pagesFree == n {
            end := i;
            FreeBelowMonotone(View(), i + 1, pages);
            return;
          }
        }
        i := i + 1;
      }
    }

    /** Marks pages start..end as one chunk (src/page.c:181-184). */
    method MarkRange(start: nat, end: nat)
      requires start <= end < 4 * book.Length
      modifies book
      ensures |old(View())| == 4 * book.Length && View() == Marked(old(View()), start, end)
    {
      hide Cells;
      ViewLength();
      ghost var cells := View();
      var i := start;
      while i < end
        invariant start <= i <= end && |View()| == |cells|
        invariant forall j :: 0 <= j < |cells| ==> View()[j] == if start <= j < i then cells[j] | TAKEN else cells[j]
      {
        Set(i, false);
        i := i + 1;
      }
      Set(end, true);
      assert View() == Marked(cells, start, end);
    }

    /** page_nalloc (src/page.c:131-189); 0 stands for NULL. */
    method Nalloc(n: int) returns (p: nat, ghost s: nat, ghost e: nat)
      requires Ok()
      modifies book
      ensures Ok()
      ensures p == 0 <==> n <= 0 || FreeBelow(old(View()), pages) < n
      ensures p == 0 ==> View() == old(View())
      ensures p != 0 ==> n > 0 && reserved <= s <= e < pages && Picks(old(View()), n, s, e)
      ensures p != 0 ==> p == heapStart + s * PAGE_SIZE && View() == Marked(old(View()), s, e)
      ensures p != 0 ==> e - s + 1 == n - FreeBelow(old(View()), s)
      ensures p != 0 ==> e < |View()| && View()[e] as int == 3 && forall i :: s <= i < e ==> View()[i] as int == 2
      ensures n > 0 ==>
                && pages <= |old(View())|
                && (p != 0 && e - s + 1 == n <==> FirstFreeTogether(old(View()), pages, n))
    {
      hide Cells, ChunksOk, FreeBelow, FirstFreeTogether;
      ViewLength();
      p, s, e := 0, 0, 0;
      if n <= 0 { return; }
      var start, end := Scan(n);
      if end == -1 {
        if FirstFreeTogether(View(), pages, n) { TogetherNeedsPages(View(), pages, n); }
        return;
      }
      s, e := start, end;
      ChunkSize(View(), n, s, e);
      WholeChunk(View(), pages, n, s, e);
      assert IsFree(View()[s]) && forall i :: 0 <= i < reserved ==> !IsFree(View()[i]);
      MarkOk(View(), pages, s, e);
      MarkRange(start, end);
      p := heapStart + start * PAGE_SIZE;
    }

    /** map_page_to_idx (src/page.c:70-78) for addresses not below the page heap. */
    function IndexOf(addr: nat): int
      requires addr >= heapStart
    {
      if addr >= heapStart + pages * PAGE_SIZE || addr % PAGE_SIZE != 0 then -1
      else (addr - heapStart) / PAGE_SIZE
    }

    /** The same below the page heap, where the difference wraps and is cut to an int. */
    function WrappedIndex(addr: nat): int
      requires addr < heapStart
    {
      if addr % PAGE_SIZE != 0 then -1
      else ToInt((addr - heapStart) % 0x1_0000_0000_0000_0000 / PAGE_SIZE)
    }

    /** Such an address is refused like the others outside the heap. */
    lemma BelowHeap(addr: nat)
      requires addr < heapStart < HIGHEST && heapStart % PAGE_SIZE == 0
      ensures WrappedIndex(addr) < 0
    {
      if addr % PAGE_SIZE == 0 {
        var d := heapStart / PAGE_SIZE - addr / PAGE_SIZE;
        assert addr - heapStart == -d * PAGE_SIZE && 0 < d < 0x8000_0000;
        var x := 0x1_0000_0000_0000_0000 - d * PAGE_SIZE;
        assert (addr - heapStart) % 0x1_0000_0000_0000_0000 == x;
        assert x == (0x10_0000_0000_0000 - d) * PAGE_SIZE;
        QuotientRemainder(x, 0x10_0000_0000_0000 - d, PAGE_SIZE, 0);
        QuotientRemainder(0x10_0000_0000_0000 - d, 0xF_FFFF, 0x1_0000_0000, 0x1_0000_0000 - d);
      }
    }

    /**
      page_free (src/page.c:200-241).  It keeps the bookkeeping in order exactly when it refuses
      the address or the page is none of the bookkeeping's own.
     */
    method Free(p: nat)
      requires Ok()
      requires p >= heapStart ==> IndexOf(p) != 0
      modifies book
      ensures p == 0 || p < heapStart || IndexOf(p) == -1 ==> View() == old(View())
      ensures p >= heapStart && IndexOf(p) >= 0 ==>
                IndexOf(p) < pages && View() == Released(old(View()), pages, IndexOf(p))
      ensures Ok() <==> p == 0 || p < heapStart || IndexOf(p) == -1 || IndexOf(p) >= reserved
      ensures p < heapStart || p >= heapStart + pages * 4096 || p % 4096 != 0 ==> View() == old(View())
      ensures heapStart <= p < heapStart + pages * 4096 && p % 4096 == 0 ==>
                var i := (p - heapStart) / 4096;
                && 0 < i < pages <= |old(View())|
                && View() == if old(View())[i - 1] as int == 2 then old(View())
                             else Cleared(old(View()), i, ChunkEnd(old(View()), pages, i))
    {
      hide Cells, ChunksOk, Released;
      ghost var cells := View();
      if p == 0 { return; }
      if p < heapStart { BelowHeap(p); }
      var index := if p < heapStart then WrappedIndex(p) else IndexOf(p);
      if index < 0 { return; }
      IndexInRange(p);
      ReleaseFrom(index);
      ReleasedChunks(cells, pages, index);
      ReleasedIs(cells, index);
      if index < reserved {
        OwnPageFreed(cells, index);
      } else {
        OwnPagesKept(cells, index);
      }
    }

    lemma ReleasedIs(cells: seq<Cell>, i: nat)
      requires 0 < i < pages <= |cells|
      ensures Released(cells, pages, i) ==
              if cells[i - 1] as int == 2 then cells else Cleared(cells, i, ChunkEnd(cells, pages, i))
    {
    }

    lemma OwnPagesKept(cells: seq<Cell>, index: nat)
      requires 0 < reserved <= index < pages <= |cells| && forall i :: 0 <= i < reserved ==> cells[i] == LAST
      ensures |Released(cells, pages, index)| == |cells|
      ensures forall i :: 0 <= i < reserved ==> Released(cells, pages, index)[i] == LAST
    {
    }

    lemma OwnPageFreed(cells: seq<Cell>, index: nat)
      requires 0 < index < reserved <= pages <= |cells| && forall i :: 0 <= i < reserved ==> cells[i] == LAST
      ensures Released(cells, pages, index)[index] == FREE
    {
    }

    /** page_free from the page index on (src/page.c:217-238). */
    method ReleaseFrom(index: nat)
      requires 0 < index < pages <= 4 * book.Length
      modifies book
      ensures |old(View())| == 4 * book.Length && View() == Released(old(View()), pages, index)
    {
      hide Cells, Cleared, ChunkEnd;
      ViewLength();
      var before := Test(index - 1);
      if before == TAKEN { return; }
      var end := FindEnd(index);
      ClearRange(index, end);
    }

    /** a is a live chunk of one page. */
    ghost predicate OnePage(cells: seq<Cell>, a: nat) {
      && heapStart <= a && 0 < reserved <= IndexOf(a) < pages <= |cells|
      && cells[IndexOf(a)] == LAST && cells[IndexOf(a) - 1] != TAKEN
    }

    /** page_nalloc(1): the first free page, or 0 when there is none. */
    method TakeOne() returns (p: nat)
      requires Ok()
      modifies book
      ensures Ok() && |View()| == |old(View())|
      ensures p == 0 <==> FreeBelow(old(View()), pages) == 0
      ensures p == 0 ==> View() == old(View())
      ensures p != 0 ==> OnePage(View(), p) && p % PAGE_SIZE == 0
      ensures p != 0 ==> old(View())[IndexOf(p)] == FREE && View() == old(View())[IndexOf(p) := LAST]
    {
      hide Cells, ChunksOk, FreeBelow;
      ViewLength();
      ghost var cells := View();
      ghost var s: nat, e: nat;
      p, s, e := Nalloc(1);
      if p != 0 {
        ChunkSize(cells, 1, s, e);
        MarkOk(cells, pages, s, e);
        AddressIndex(s);
        assert View() == cells[s := LAST];
      }
    }

    lemma AddressIndex(s: nat)
      requires s < pages && heapStart % PAGE_SIZE == 0
      ensures var p := heapStart + s * PAGE_SIZE; p % PAGE_SIZE == 0 && IndexOf(p) == s
    {
    }

    /** page_free of a live chunk of one page. */
    method FreeOne(p: nat)
      requires Ok() && OnePage(View(), p)
      modifies book
      ensures Ok() && View() == old(View())[IndexOf(p) := FREE]
    {
      hide Cells, ChunksOk;
      ghost var cells, i := View(), IndexOf(p);
      assert ChunkStart(cells, pages, i);
      ReleaseOk(cells, pages, i);
      Free(p);
      assert ChunkEnd(cells, pages, i) == i;
      assert Cleared(cells, i, i) == cells[i := FREE];
    }

    /** The end of the chunk page_free clears (src/page.c:213, 227-231). */
    method FindEnd(index: nat) returns (end: nat)
      requires index < pages <= 4 * book.Length
      ensures |View()| == 4 * book.Length && end == ChunkEnd(View(), pages, index)
    {
      hide Cells;
      ViewLength();
      end := index;
      var c := Test(end);
      while c != LAST && end < pages - 1
        invariant index <= end < pages && c == View()[end]
        invariant ChunkEnd(View(), pages, index) == ChunkEnd(View(), pages, end)
        decreases pages - end
      {
        end := end + 1;
        c := Test(end);
      }
    }

    method ClearRange(start: nat, end: nat)
      requires start <= end < 4 * book.Length
      modifies book
      ensures |old(View())| == 4 * book.Length && View() == Cleared(old(View()), start, end)
    {
      hide Cells;
      ViewLength();
      ghost var cells := View();
      var i := start;
      while i <= end
        invariant start <= i <= end + 1 && |View()| == |cells|
        invariant forall j :: 0 <= j < |cells| ==> View()[j] == if start <= j < i then FREE else cells[j]
      {
        Clear(i);
        i := i + 1;
      }
      assert View() == Cleared(cells, start, end);
    }

    lemma IndexInRange(p: nat)
      requires p >= heapStart && IndexOf(p) >= 0
      ensures IndexOf(p) < pages
    {
    }

    /** page_count_free and page_count_taken (src/page.c:243-291). */
    method Count() returns (free: nat, taken: nat)
      requires Ok()
      ensures free == FreeBelow(View(), pages) && taken == TakenBelow(View(), pages)
      ensures free + taken == pages
    {
      free, taken := 0, 0;
      for i := 0 to pages
        invariant free == FreeBelow(View(), i) && taken == TakenBelow(View(), i)
      {
        var c := Test(i);
        if c < 2 { free := free + 1; }
        if c >= 2 { taken := taken + 1; }
      }
      CountsAddUp(View(), pages);
    }
  }

  lemma AllFree(book: seq<bv8>)
    requires forall i :: 0 <= i < |book| ==> book[i] == 0
    ensures forall i :: 0 <= i < |Cells(book)| ==> Cells(book)[i] == FREE
  {
  }
}
