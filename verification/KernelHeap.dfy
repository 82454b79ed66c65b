/**
  The kernel heap allocator (src/kmalloc.c): a fixed table of block descriptors threaded
  into a free, a used and a blank list.
 */
module KernelHeap {
  import opened Arithmetic
  import opened HeapLists
  import opened HeapShape
  import opened HeapSteps

  class Heap {
    const blocks: array<Block>
    const base: nat
    const limit: nat
    var free: int
    var used: int
    var blank: int
    var top: nat
    ghost var freeList: seq<int>
    ghost var usedList: seq<int>
    ghost var blankList: seq<int>
    ghost var tiles: seq<int>

    ghost function Table(): Table
      reads blocks
    {
      blocks[..]
    }

    /** The whole state as a value; its invariant is Shape.Valid. */
    ghost function Now(): Shape
      reads this, blocks
    {
      Shape(blocks[..], free, used, blank, top, freeList, usedList, blankList, tiles, base, limit)
    }

    /** Stores a descriptor; every change of the table goes through here. */
    method Store(i: int, b: Block)
      requires 0 <= i < blocks.Length
      modifies blocks
      ensures Table() == old(Table())[i := b]
    {
      blocks[i] := b;
      assert blocks[..] == old(blocks[..])[i := b];
    }

    /** insert_block (src/kmalloc.c:41-59): into the free list, before the first block not below it. */
    method InsertBlock(b: int) returns (ghost at: nat)
      requires 0 <= b < blocks.Length && b !in freeList
      requires Chain(Table(), free, freeList) && NoDup(freeList)
      modifies `free, `freeList, blocks
      ensures InPlace(old(Table()), old(freeList), at, b) && freeList == Inserted(old(freeList), at, b)
      ensures Chain(Table(), free, freeList)
      ensures Table() == Relink(Relink(old(Table()), Before(old(freeList), at), b), b, Link(old(freeList), at))
    {
      hide Chain, NoDup, Inserted;
      ChainInRange(Table(), free, freeList);
      ChainHead(Table(), free, freeList);
      var ptr, prev := free, NULL;
      at := 0;
      while ptr != NULL
        invariant at <= |freeList| && ptr == Link(freeList, at) && prev == Before(freeList, at)
        invariant forall j :: 0 <= j < at ==> Table()[freeList[j]].addr < Table()[b].addr
        modifies {}
        decreases |freeList| - at
      {
        LinkAt(Table(), free, freeList, at);
        if blocks[b].addr <= blocks[ptr].addr {
          break;
        }
        prev := ptr;
        ptr := blocks[ptr].next;
        at := at + 1;
      }
      SpliceChain(Table(), free, freeList, at, b);
      InsertedDef(freeList, at, b);
      if prev != NULL {
        Store(prev, blocks[prev].(next := b));
      } else {
        free := b;
      }
      Store(b, blocks[b].(next := ptr));
      freeList := Inserted(freeList, at, b);
    }

    /** release_blocks (src/kmalloc.c:62-73): clears the descriptors of run and makes them blank. */
    method ReleaseBlocks(from: int, to: int, ghost run: seq<int>)
      requires Chain(Table(), blank, blankList) && InTable(Table(), run) && NoDup(run) && Disjoint(run, blankList)
      requires to !in run && from == if run == [] then to else run[0]
      requires forall i {:trigger Table()[run[i]]} :: 0 <= i < |run| ==>
                 Table()[run[i]].next == if i + 1 < |run| then run[i + 1] else to
      modifies `blank, `blankList, blocks
      ensures blankList == Pushed(run, old(blankList)) && Chain(Table(), blank, blankList)
      ensures forall x :: 0 <= x < blocks.Length && x !in run ==> Table()[x] == old(Table())[x]
      ensures forall x :: 0 <= x < blocks.Length && x in run ==> Table()[x].addr == 0 && Table()[x].size == 0
    {
      hide Chain, Pushed, NoDup, Disjoint;
      PushedNone(blankList);
      var scan := from;
      ghost var j := 0;
      assert run[..0] == [] && run[..|run|] == run;
      while scan != to
        invariant 0 <= j <= |run| && scan == if j < |run| then run[j] else to
        invariant Chain(Table(), blank, blankList) && blankList == Pushed(run[..j], old(blankList))
        invariant forall x :: 0 <= x < blocks.Length && x !in run[..j] ==> Table()[x] == old(Table())[x]
        invariant forall x :: 0 <= x < blocks.Length && x in run[..j] ==> Table()[x].addr == 0 && Table()[x].size == 0
        decreases |run| - j
      {
        PushedNext(run, old(blankList), j);
        PushBlank(Table(), blank, blankList, scan);
        var next := blocks[scan].next;
        Store(scan, Block(0, blank, 0));
        blank := scan;
        blankList := [scan] + blankList;
        j := j + 1;
        scan := next;
      }
    }

    /** The merge inside compact (src/kmalloc.c:87-95): ptr swallows the m free blocks behind it. */
    method MergeRun(ptr: int, prev: int, ghost f: nat, ghost m: nat)
      requires Now().Loose() && 0 < m && f + m < |freeList| && Touching(Table(), freeList, f, m)
      requires ptr == freeList[f] && prev == freeList[f + m]
      modifies `blank, `freeList, `blankList, `tiles, blocks
      ensures Now().Loose() && freeList == Without(old(freeList), f, m)
      ensures Merged(old(Now()), f, m, Table())
    {
      hide Shape.Loose, Chain, Merged, Without, Ascending, NoDup, Disjoint, Pushed, Touching, InTable, Position, Link;
      ghost var s := Now();
      FreeListFacts(s);
      TouchingOrder(Table(), freeList, f, m);
      RunElements(freeList, f, m, blankList);
      RunLinks(Table(), free, freeList, f, m);
      Swallow(ptr, prev, freeList[f + 1..f + m + 1]);
      MergedTable(s, f, m, Table());
      ghost var i := Position(tiles, ptr);
      MergeLoose(s, f, m, Table(), blank, i);
      ghost var h := s.(t := Table(), blank := blank, freeList := Without(freeList, f, m),
                        blankList := blankList, tiles := Without(tiles, i, m));
      freeList := Without(freeList, f, m);
      tiles := Without(tiles, i, m);
      assert Now() == h;
    }

    /** The pointer work of the merge: ptr takes the range up to prev's end and prev's successor. */
    method Swallow(ptr: int, prev: int, ghost run: seq<int>)
      requires 0 <= ptr < blocks.Length && 0 <= prev < blocks.Length && prev != ptr
      requires Table()[ptr].addr <= Table()[prev].End()
      requires Chain(Table(), blank, blankList) && InTable(Table(), run) && NoDup(run) && Disjoint(run, blankList)
      requires ptr !in run && ptr !in blankList && ptr !in Pushed(run, blankList)
      requires run != [] && Table()[ptr].next == run[0] && Table()[prev].next !in run
      requires forall i {:trigger Table()[run[i]]} :: 0 <= i < |run| ==>
                 Table()[run[i]].next == if i + 1 < |run| then run[i + 1] else Table()[prev].next
      modifies `blank, `blankList, blocks
      ensures blankList == Pushed(run, old(blankList)) && Chain(Table(), blank, blankList)
      ensures forall x :: 0 <= x < blocks.Length && x !in run && x != ptr ==> Table()[x] == old(Table())[x]
      ensures Table()[ptr].addr == old(Table())[ptr].addr && Table()[ptr].End() == old(Table())[prev].End()
      ensures Table()[ptr].next == old(Table())[prev].next
    {
      hide Chain, NoDup, Disjoint, Pushed;
      var newSize := blocks[prev].addr + blocks[prev].size - blocks[ptr].addr;
      FrameOne(Table(), blank, blankList, ptr, blocks[ptr].(size := newSize));
      Store(ptr, blocks[ptr].(size := newSize));
      var next := blocks[prev].next;
      ReleaseBlocks(blocks[ptr].next, next, run);
      FrameOne(Table(), blank, blankList, ptr, blocks[ptr].(next := next));
      Store(ptr, blocks[ptr].(next := next));
    }

    /** compact's inner loop (src/kmalloc.c:81-86): how far the blocks behind ptr touch. */
    method ScanRun(ptr: int, ghost f: nat) returns (prev: int, ghost m: nat)
      requires Now().Loose() && f < |freeList| && ptr == freeList[f]
      ensures f + m < |freeList| && Touching(Table(), freeList, f, m) && prev == freeList[f + m]
                && (prev == ptr <==> m == 0)
      ensures f + m + 1 < |freeList| ==> Table()[freeList[f + m]].End() != Table()[freeList[f + m + 1]].addr
    {
      hide Shape.Loose, Chain, Ascending, Touching;
      FreeListFacts(Now());
      LinkAt(Table(), free, freeList, f);
      TouchingNone(Table(), freeList, f);
      var scan := blocks[ptr].next;
      prev := ptr;
      m := 0;
      while scan != NULL && blocks[prev].addr + blocks[prev].size == blocks[scan].addr
        invariant f + m < |freeList| && prev == freeList[f + m] && scan == Link(freeList, f + m + 1)
        invariant Touching(Table(), freeList, f, m)
        decreases |freeList| - f - m
      {
        TouchingMore(Table(), freeList, f, m);
        LinkAt(Table(), free, freeList, f + m + 1);
        prev := scan;
        scan := blocks[scan].next;
        m := m + 1;
      }
    }

    /** compact (src/kmalloc.c:75-98): merges every run of touching free blocks. */
    method Compact()
      requires Now().Loose()
      modifies `blank, `freeList, `blankList, `tiles, blocks
      ensures Now().Valid()
      ensures forall x :: x in usedList ==> 0 <= x < blocks.Length && Table()[x] == old(Table())[x]
      ensures old(Now().Valid()) ==> Now() == old(Now())
    {
      hide Shape.Loose, Shape.Valid, Merged, Without, Touching, Chain, Ascending, Apart;
      FreeListFacts(Now());
      ApartNone(Table(), freeList);
      var ptr := free;
      ChainHead(Table(), free, freeList);
      ghost var f := 0;
      while ptr != NULL
        invariant 0 <= f <= |freeList| && ptr == Link(freeList, f)
        invariant Now().Loose() && Apart(Table(), freeList, f)
        invariant forall x :: x in usedList ==> 0 <= x < blocks.Length && Table()[x] == old(Table())[x]
        invariant old(Now().Valid()) ==> Now() == old(Now())
        decreases |freeList| - f
      {
        FreeListFacts(Now());
        var prev, m := ScanRun(ptr, f);
        if prev != ptr {
          AfterMerge(Now(), f, m);
          MergeRun(ptr, prev, f, m);
        } else {
          NotTouching(Table(), freeList, f);
        }
        FreeListFacts(Now());
        LinkAt(Table(), free, freeList, f);
        ptr := blocks[ptr].next;
        f := f + 1;
      }
      FreeListFacts(Now());
      assert f == |freeList|;
      AllApart(Now());
    }

    /** The walk of free through the used list (src/kmalloc.c:127-143). */
    method FindUsed(addr: nat) returns (block: int, prev: int, ghost i: nat)
      requires Now().Valid()
      ensures i <= |usedList| && block == Link(usedList, i) && prev == Before(usedList, i)
      ensures block == NULL <==> i == |usedList|
      ensures block != NULL ==> 0 <= block < blocks.Length && Table()[block].addr == addr
      ensures forall j :: 0 <= j < i ==> 0 <= usedList[j] < blocks.Length && Table()[usedList[j]].addr != addr
    {
      hide Shape.Loose, Chain, Ascending, Tiles, Partition;
      LooseParts(Now());
      ChainHead(Table(), used, usedList);
      block, prev, i := used, NULL, 0;
      while block != NULL
        invariant i <= |usedList| && block == Link(usedList, i) && prev == Before(usedList, i)
        invariant forall j :: 0 <= j < i ==> Table()[usedList[j]].addr != addr
        decreases |usedList| - i
      {
        LinkAt(Table(), used, usedList, i);
        if addr == blocks[block].addr {
          return;
        }
        prev := block;
        block := blocks[block].next;
        i := i + 1;
      }
    }

    /** free (src/kmalloc.c:125-145): gives a used block back; any other address changes nothing. */
    method Free(addr: nat) returns (freed: bool, ghost i: nat)
      requires Now().Valid()
      modifies this, blocks
      ensures Now().Valid()
      ensures freed <==> exists j :: 0 <= j < |old(usedList)| && old(Table())[old(usedList)[j]].addr == addr
      ensures freed ==> i < |old(usedList)| && old(Table())[old(usedList)[i]].addr == addr
      ensures freed ==> usedList == Removed(old(usedList), i) && top == old(top)
      ensures KeepsBlocks(old(Table()), Table(), usedList)
      ensures !freed ==> Now() == old(Now())
    {
      hide Shape.Loose, Chain, Ascending, Tiles, Partition, InPlace, Relink, Removed, Inserted, SameExtents;
      LooseParts(Now());
      var block, prev;
      block, prev, i := FindUsed(addr);
      if block == NULL {
        return false, i;
      }
      GiveBack(block, prev, i);
      ghost var s := Now();
      Compact();
      return true, i;
    }

    /** The relinking of free (src/kmalloc.c:131-137). */
    method GiveBack(block: int, prev: int, ghost i: nat)
      requires Now().Valid() && i < |usedList| && block == usedList[i] && prev == Before(usedList, i)
      requires 0 <= block < blocks.Length
      modifies this, blocks
      ensures Now().Loose() && usedList == Removed(old(usedList), i) && top == old(top)
      ensures KeepsBlocks(old(Table()), Table(), usedList)
    {
      hide Shape.Loose, Chain, Ascending, Tiles, Partition, InPlace, Inserted, Removed, SameExtents, NoDup, Disjoint;
      ghost var s := Now();
      UsedFacts(s, i);
      if prev != NULL {
        Store(prev, blocks[prev].(next := blocks[block].next));
      } else {
        used := blocks[block].next;
      }
      assert Table() == Relink(s.t, prev, Link(s.usedList, i + 1));
      usedList := Removed(usedList, i);
      ghost var at := InsertBlock(block);
      RelinkExtents(s.t, prev, Link(s.usedList, i + 1));
      InPlaceExtents(s.t, Relink(s.t, prev, Link(s.usedList, i + 1)), s.freeList, at, block);
      FreeStep(s, i, at, free);
      assert Now() == s.(t := Table(), free := free, used := used, freeList := freeList, usedList := usedList);
      ExtentsKeep(s.t, Table(), usedList);
    }

    /** The first-fit walk of alloc_block (src/kmalloc.c:149-185). */
    method FindFit(num: nat) returns (ptr: int, prev: int, isTop: bool, ghost i: nat)
      requires Now().Valid()
      ensures i <= |freeList| && ptr == Link(freeList, i) && prev == Before(freeList, i)
      ensures ptr == NULL <==> i == |freeList|
      ensures forall j :: 0 <= j < i ==>
                0 <= freeList[j] < blocks.Length && !Fits(Table()[freeList[j]], num, top, limit)
      ensures ptr != NULL ==> 0 <= ptr < blocks.Length && Fits(Table()[ptr], num, top, limit)
      ensures i == FirstFit(Now(), num)
      ensures ptr != NULL ==> isTop == ReachesTop(Table()[ptr], num, top, limit)
    {
      hide Shape.Loose, Chain, Ascending, Tiles, Partition, Apart;
      LooseParts(Now());
      ChainHead(Table(), free, freeList);
      ptr, prev, i, isTop := free, NULL, 0, false;
      while ptr != NULL
        invariant i <= |freeList| && ptr == Link(freeList, i) && prev == Before(freeList, i)
        invariant forall j :: 0 <= j < i ==> !Fits(Table()[freeList[j]], num, top, limit)
        decreases |freeList| - i
      {
        LinkAt(Table(), free, freeList, i);
        isTop := blocks[ptr].addr + blocks[ptr].size >= top && blocks[ptr].addr + num <= limit;
        if isTop || blocks[ptr].size >= num {
          FirstFitIs(Now(), num, i);
          return;
        }
        prev := ptr;
        ptr := blocks[ptr].next;
        i := i + 1;
      }
      FirstFitIs(Now(), num, i);
    }

    /** Moves the block found from the free to the used list (src/kmalloc.c:157-164). */
    method Take(ptr: int, prev: int, ghost i: nat)
      requires Now().Valid() && i < |freeList| && ptr == freeList[i] && prev == Before(freeList, i)
      requires 0 <= ptr < blocks.Length
      modifies `free, `used, `freeList, `usedList, blocks
      ensures Now().Valid() && usedList == [ptr] + old(usedList) && freeList == Removed(old(freeList), i)
      ensures SameExtents(old(Table()), Table()) && GapBehind(Table(), freeList, ptr)
    {
      hide Shape.Loose, Shape.Valid, Removed, SameExtents, GapBehind;
      ghost var s := Now();
      FreeFacts(s, i);
      TakeStep(s, i);
      if prev != NULL {
        Store(prev, blocks[prev].(next := blocks[ptr].next));
      } else {
        free := blocks[ptr].next;
      }
      Store(ptr, blocks[ptr].(next := used));
      used := ptr;
      freeList := Removed(freeList, i);
      usedList := [ptr] + usedList;
      ghost var h := s.(t := Relink(Relink(s.t, prev, Link(s.freeList, i + 1)), ptr, s.used),
                        free := if i == 0 then Link(s.freeList, 1) else s.free, used := ptr,
                        freeList := Removed(s.freeList, i), usedList := [ptr] + s.usedList);
      assert Now() == h;
    }

    /** Splits the block just taken and frees the rest (src/kmalloc.c:170-179); compact finds nothing to merge. */
    method Split(ptr: int, num: nat)
      requires Now().Valid() && ptr in usedList && 0 <= ptr < blocks.Length && blankList != []
      requires 0 < num && num + SPLIT_THRESH <= Table()[ptr].size && num % ALIGNMENT == 0
      requires GapBehind(Table(), freeList, ptr) && blank == blankList[0] && 0 <= blank < blocks.Length
      modifies `free, `blank, `freeList, `blankList, `tiles, blocks
      ensures Now().Valid() && Table()[ptr].addr == old(Table())[ptr].addr && Table()[ptr].size == num
      ensures KeepsOthers(old(Table()), Table(), usedList, ptr)
      ensures blankList == old(blankList)[1..] && |freeList| == |old(freeList)| + 1
    {
      hide Shape.Loose, Shape.Valid, Chain, Inserted, InPlace, SameExtents, GapBehind, Relink, KeepsOthers, Cut;
      ghost var s := Now();
      ValidIsLoose(s);
      var split := blank;
      CutOff(ptr, num);
      ghost var t1 := Table();
      ghost var at := InsertBlock(split);
      InPlaceBound(t1, s.freeList, at, split);
      InsertedLength(s.freeList, at, split);
      SplitStep(s, ptr, num, at, free);
      CutKeeps(s, ptr, num, Table());
      ghost var h := s.(t := Table(), free := free, blank := Link(s.blankList, 1), freeList := freeList,
                        blankList := s.blankList[1..], tiles := Inserted(s.tiles, Position(s.tiles, ptr) + 1, s.blank));
      blankList := s.blankList[1..];
      tiles := h.tiles;
      assert Now() == h;
      ValidIsLoose(h);
      assert ptr in usedList;
      Compact();
    }

    /** Cuts ptr to num bytes and gives the rest to a blank descriptor. */
    method CutOff(ptr: int, num: nat)
      requires Now().Valid() && ptr in usedList && 0 <= ptr < blocks.Length && blankList != []
      requires 0 < num && num + SPLIT_THRESH <= Table()[ptr].size && num % ALIGNMENT == 0
      requires GapBehind(Table(), freeList, ptr) && blank == blankList[0] && 0 <= blank < blocks.Length
      modifies `blank, blocks
      ensures Table() == Cut(old(Table()), ptr, num, old(blank)) && blank == Link(blankList, 1)
      ensures Chain(Table(), free, freeList) && NoDup(freeList) && old(blank) !in freeList
    {
      hide Shape.Loose, Shape.Valid, Chain, Inserted, GapBehind, NoDup, Ascending, Tiles, Apart, Disjoint, InTable;
      ghost var s := Now();
      ValidIsLoose(s);
      LooseParts(s);
      PartitionNoDup(freeList, usedList, blankList, blocks.Length);
      CutStep(s, ptr, num);
      var excess := blocks[ptr].size - num;
      Store(ptr, blocks[ptr].(size := num));
      var split := blank;
      blank := blocks[split].next;
      Store(split, Block(blocks[ptr].addr + num, blocks[split].next, excess));
      assert Table() == Cut(s.t, ptr, num, split);
    }

    /** Serves a request from the free block found (src/kmalloc.c:157-181). */
    method Serve(ptr: int, prev: int, isTop: bool, num: nat, ghost i: nat)
      requires Now().Valid() && i < |freeList| && ptr == freeList[i] && prev == Before(freeList, i)
      requires 0 <= ptr < blocks.Length && 0 < num && num % ALIGNMENT == 0
      requires Fits(Table()[ptr], num, top, limit) && isTop == ReachesTop(Table()[ptr], num, top, limit)
      modifies this, blocks
      ensures Now().Valid() && usedList == [ptr] + old(usedList)
      ensures Table()[ptr].size >= num
      ensures Table()[ptr].size < num + SPLIT_THRESH || old(blankList) == []
      ensures KeepsOthers(old(Table()), Table(), usedList, ptr)
      ensures Granted(old(Now()), ptr, num, Now())
    {
      hide Shape.Loose, Shape.Valid, Chain, GapBehind, SameExtents, KeepsOthers;
      ghost var s := Now();
      FreeFacts(s, i);
      Take(ptr, prev, i);
      ghost var s1 := Now();
      TakeKeeps(s, i, s1);
      BlankFacts(s1);
      if isTop {
        ResizeStep(s1, ptr, num);
        ResizeKeeps(s.t, s1.t, usedList, ptr, num);
        Store(ptr, blocks[ptr].(size := num));
        top := blocks[ptr].addr + num;
        assert Now() == s1.(t := s1.t[ptr := s1.t[ptr].(size := num)], top := s1.t[ptr].addr + num);
      } else if blank != NULL {
        var excess := blocks[ptr].size - num;
        if excess >= SPLIT_THRESH {
          Split(ptr, num);
          KeepsCompose(s.t, s1.t, Table(), usedList, ptr);
        }
      }
    }

    /**
      alloc_block (src/kmalloc.c:147-200): the descriptor of a block of at least `request`
      bytes, or NULL exactly when no free block fits and no new block can be made at the top.
     */
    method AllocBlock(request: nat) returns (r: int)
      requires Now().Valid() && request > 0
      modifies this, blocks
      ensures Now().Valid()
      ensures r == NULL <==> !CanServe(old(Now()), RoundUp(request, ALIGNMENT))
      ensures r == NULL ==> Now() == old(Now())
      ensures r != NULL ==> 0 <= r < blocks.Length && usedList == [r] + old(usedList)
      ensures r != NULL ==> Table()[r].addr % ALIGNMENT == 0 && Table()[r].size >= request
      ensures r != NULL ==> Table()[r].size < RoundUp(request, ALIGNMENT) + SPLIT_THRESH || old(blankList) == []
      ensures var s, num := old(Now()), (request + 7) / 8 * 8;
              var j := FirstFit(s, num);
              if j < |s.freeList| then r == s.freeList[j] && Granted(s, r, num, Now())
              else if s.blankList != [] && s.top + num <= s.limit then
                && r == s.blankList[0] && 0 <= r < blocks.Length
                && Table()[r].addr == s.top && Table()[r].size == num && top == s.top + num
                && freeList == s.freeList && blankList == s.blankList[1..]
              else r == NULL
      ensures r != NULL ==> KeepsOthers(old(Table()), Table(), usedList, r)
    {
      hide Shape.Loose, Shape.Valid, Chain, Tiles, RoundUp, KeepsOthers, FirstFit, Granted;
      Rounded(request);
      var num := RoundUp(request, ALIGNMENT);
      RoundUpFits(request);
      ghost var s := Now();
      BlankFacts(s);
      var ptr, prev, isTop, i := FindFit(num);
      if ptr != NULL {
        Serve(ptr, prev, isTop, num, i);
        UsedAligned(Now(), 0);
        return ptr;
      }
      if blank != NULL && top + num <= limit {
        NewTopStep(s, num);
        ptr := blank;
        NewKeeps(s, num);
        blank := blocks[ptr].next;
        Store(ptr, Block(top, used, num));
        used := ptr;
        top := top + num;
        usedList, blankList, tiles := [ptr] + usedList, blankList[1..], tiles + [ptr];
        assert Now() == s.(t := Table(), used := ptr, blank := Link(s.blankList, 1), top := s.top + num,
                           usedList := [ptr] + s.usedList, blankList := s.blankList[1..], tiles := s.tiles + [ptr]);
        UsedAligned(Now(), 0);
        return ptr;
      }
      return NULL;
    }

    /** count_blocks (src/kmalloc.c:222-230). */
    method CountBlocks(head: int, ghost s: seq<int>) returns (num: nat)
      requires Chain(Table(), head, s)
      ensures num == |s|
    {
      ChainInRange(Table(), head, s);
      var ptr := head;
      num := 0;
      while ptr != NULL
        invariant num <= |s| && ptr == Link(s, num)
        decreases |s| - num
      {
        num := num + 1;
        ptr := blocks[ptr].next;
      }
    }

    /** heap_check (src/kmalloc.c:243-246) never fails. */
    method HeapCheck() returns (ok: bool)
      requires Now().Valid()
      ensures ok
    {
      LooseParts(Now());
      var numFree := CountBlocks(free, freeList);
      var numUsed := CountBlocks(used, usedList);
      var numBlank := CountBlocks(blank, blankList);
      ok := blocks.Length == numFree + numUsed + numBlank;
    }

    /** init (src/kmalloc.c:101-123): the table behind the heap header, all descriptors blank. */
    constructor (start: nat, limit: nat, count: nat)
      requires count > 0 && start % ALIGNMENT == 0 && start + HEADER_SIZE + DESCRIPTOR_SIZE * count <= limit
      ensures Now().Valid() && fresh(blocks) && blocks.Length == count
      ensures usedList == [] && freeList == [] && this.limit == limit
      ensures base == top == start + 32 + 24 * count
    {
      blocks := new Block[count](_ => Block(0, NULL, 0));
      base, this.limit := start + HEADER_SIZE + DESCRIPTOR_SIZE * count, limit;
      free, used, blank := NULL, NULL, 0;
      top := start + HEADER_SIZE + DESCRIPTOR_SIZE * count;
      freeList, usedList, tiles := [], [], [];
      blankList := seq(count, i => i);
      new;
      hide Shape.Valid;
      var i := 0;
      while i < count - 1
        invariant 0 <= i <= count - 1
        invariant forall j :: 0 <= j < i ==> blocks[j].next == j + 1
        invariant blocks[count - 1].next == NULL
        modifies blocks
      {
        blocks[i] := blocks[i].(next := i + 1);
        i := i + 1;
      }
      blocks[count - 1] := blocks[count - 1].(next := NULL);
      InitialValid(Now());
    }
  }

  const HEADER_SIZE := 32
  const DESCRIPTOR_SIZE := 24
}
