/**
  Whole runs of the heap allocator against the simplest allocator there is: a set of live
  extents.
 */
module HeapRuns {
  import opened Arithmetic
  import opened HeapLists
  import opened HeapShape
  import opened HeapSteps
  import opened KernelHeap

  datatype Op = Alloc(request: nat) | Release(addr: nat)

  datatype Extent = Extent(addr: nat, size: nat) {
    predicate Apart(other: Extent) {
      addr + size <= other.addr || other.addr + other.size <= addr
    }
  }

  datatype Reply = Refused | Done | Got(extent: Extent)

  /** The blocks a caller may use. */
  ghost function Live(s: Shape): set<Extent> {
    set x | x in s.usedList && 0 <= x < |s.t| :: Extent(s.t[x].addr, s.t[x].size)
  }

  /**
    What a call may do to the live extents: an allocation adds one that is aligned, large
    enough and apart from all others; a release removes the one at that address, if any.
   */
  ghost predicate Serves(live: set<Extent>, op: Op, reply: Reply, live': set<Extent>) {
    match op
    case Alloc(request) =>
      if reply.Got? then
        && live' == live + {reply.extent} && reply.extent !in live
        && reply.extent.addr % ALIGNMENT == 0 && reply.extent.size >= request
        && (forall e :: e in live ==> e.Apart(reply.extent))
      else reply == Refused && live' == live
    case Release(addr) =>
      && live' == (set e | e in live && e.addr != addr)
      && (reply == if exists e :: e in live && e.addr == addr then Done else Refused)
  }

  /** Two used blocks at the same address are one. */
  lemma AddressDecides(s: Shape, x: int, y: int)
    requires s.Loose() && x in s.usedList && y in s.usedList
    ensures 0 <= x < |s.t| && 0 <= y < |s.t| && (s.t[x].addr == s.t[y].addr ==> x == y)
  {
    hide Chain, Tiles, Partition, Ascending;
    LooseParts(s);
    TilesPositive(s);
    if x != y {
      LiveDisjoint(s, x, y);
    }
  }

  lemma AllocServes(s: Shape, s': Shape, request: nat, r: int)
    requires s.Valid() && s'.Valid() && s'.usedList == [r] + s.usedList && 0 <= r < |s'.t|
    requires KeepsOthers(s.t, s'.t, s'.usedList, r)
    requires s'.t[r].addr % ALIGNMENT == 0 && s'.t[r].size >= request
    ensures Serves(Live(s), Alloc(request), Got(Extent(s'.t[r].addr, s'.t[r].size)), Live(s'))
  {
    hide Shape.Loose, Apart, ALIGNMENT;
    var got := Extent(s'.t[r].addr, s'.t[r].size);
    ValidIsLoose(s);
    ValidIsLoose(s');
    UsedInTable(s);
    UsedInTable(s');
    FirstOnce(s', r, s.usedList);
    forall x | x in s.usedList
      ensures Extent(s.t[x].addr, s.t[x].size).Apart(got) && Extent(s.t[x].addr, s.t[x].size) != got
    {
      assert x in s'.usedList && r in s'.usedList && x != r;
      LiveDisjoint(s', x, r);
      AddressDecides(s', x, r);
    }
    assert Live(s') == Live(s) + {got};
  }

  lemma UsedInTable(s: Shape)
    requires s.Loose()
    ensures forall x :: x in s.usedList ==> 0 <= x < |s.t|
  {
    LooseParts(s);
  }

  lemma FirstOnce(s: Shape, r: int, rest: seq<int>)
    requires s.Loose() && s.usedList == [r] + rest
    ensures r !in rest
  {
    LooseParts(s);
    assert NoDup(s.usedList);
    forall i | 0 <= i < |rest|
      ensures rest[i] != r
    {
      assert s.usedList[0] == r && s.usedList[i + 1] == rest[i];
    }
  }

  lemma ReleaseServes(s: Shape, s': Shape, addr: nat, i: nat)
    requires s.Valid() && s'.Valid() && i < |s.usedList| && s'.usedList == Removed(s.usedList, i)
    requires 0 <= s.usedList[i] < |s.t| && s.t[s.usedList[i]].addr == addr
    requires KeepsBlocks(s.t, s'.t, s'.usedList)
    ensures Serves(Live(s), Release(addr), Done, Live(s'))
  {
    hide Shape.Loose, Apart, Removed;
    ValidIsLoose(s);
    UsedInTable(s);
    UsedNoDup(s);
    RemovedElements(s.usedList, i);
    var x := s.usedList[i];
    assert Extent(s.t[x].addr, s.t[x].size) in Live(s);
    forall y | y in s.usedList
      ensures s.t[y].addr == addr <==> y == x
    {
      AddressDecides(s, x, y);
    }
    assert Live(s') == set e | e in Live(s) && e.addr != addr;
  }

  lemma UsedNoDup(s: Shape)
    requires s.Loose()
    ensures NoDup(s.usedList)
  {
    LooseParts(s);
  }

  lemma NothingLive(s: Shape)
    requires s.Valid()
    ensures Live(s) == {} <==> s.usedList == []
  {
    ValidUsed(s);
    if s.usedList != [] {
      var x := s.usedList[0];
      assert Extent(s.t[x].addr, s.t[x].size) in Live(s);
    }
  }

  /** One call; with nothing live, a request is served exactly if it fits into the whole heap. */
  method Perform(h: Heap, op: Op) returns (reply: Reply)
    requires h.Now().Valid() && (op.Alloc? ==> op.request > 0)
    modifies h, h.blocks
    ensures h.Now().Valid() && Serves(old(Live(h.Now())), op, reply, Live(h.Now()))
    ensures op.Alloc? && old(Live(h.Now())) == {} && h.blocks.Length > 0 ==>
              (reply.Got? <==> RoundUp(op.request, ALIGNMENT) <= h.limit - h.base)
  {
    hide Shape.Valid, KeepsOthers, KeepsBlocks, CanServe;
    ghost var s := h.Now();
    match op
    case Alloc(request) =>
      var r := h.AllocBlock(request);
      NothingLive(s);
      if Live(s) == {} && h.blocks.Length > 0 {
        RecoveredServes(s, RoundUp(request, ALIGNMENT));
      }
      if r == NULL {
        reply := Refused;
      } else {
        reply := Got(Extent(h.blocks[r].addr, h.blocks[r].size));
        AllocServes(s, h.Now(), request, r);
      }
    case Release(addr) =>
      var freed, i := h.Free(addr);
      ValidUsed(s);
      if freed {
        reply := Done;
        ReleaseServes(s, h.Now(), addr, i);
      } else {
        reply := Refused;
        assert Live(s) == set e | e in Live(s) && e.addr != addr;
      }
  }

  lemma ValidUsed(s: Shape)
    requires s.Valid()
    ensures forall x :: x in s.usedList ==> 0 <= x < |s.t|
    ensures forall j :: 0 <= j < |s.usedList| ==> 0 <= s.usedList[j] < |s.t|
  {
    LooseParts(s);
    assert forall j :: 0 <= j < |s.usedList| ==> s.usedList[j] in s.usedList;
  }

  /**
    Any sequence of requests (of at least one byte) and releases keeps the heap invariant, and
    every call does to the live blocks what the set of extents allows: a block keeps its address
    and size from its allocation to its release.
   */
  method Run(h: Heap, ops: seq<Op>) returns (replies: seq<Reply>, ghost trace: seq<set<Extent>>)
    requires h.Now().Valid() && forall i :: 0 <= i < |ops| ==> ops[i].Alloc? ==> ops[i].request > 0
    modifies h, h.blocks
    ensures h.Now().Valid() && |replies| == |ops| && |trace| == |ops| + 1
    ensures trace[0] == old(Live(h.Now())) && trace[|ops|] == Live(h.Now())
    ensures forall i :: 0 <= i < |ops| ==> Serves(trace[i], ops[i], replies[i], trace[i + 1])
  {
    hide Shape.Valid, Serves, Live;
    replies, trace := [], [Live(h.Now())];
    for n := 0 to |ops|
      invariant h.Now().Valid() && |replies| == n && |trace| == n + 1
      invariant trace[0] == old(Live(h.Now())) && trace[n] == Live(h.Now())
      invariant forall i :: 0 <= i < n ==> Serves(trace[i], ops[i], replies[i], trace[i + 1])
    {
      var reply := Perform(h, ops[n]);
      replies := replies + [reply];
      trace := trace + [Live(h.Now())];
    }
  }
}
