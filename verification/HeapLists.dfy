/**
  The block table of the kernel heap as values: linked chains of descriptors, and the
  address ranges they describe (src/kmalloc.c:16-27).
 */
module HeapLists {

  const NULL := -1
  const ALIGNMENT := 8
  const SPLIT_THRESH := 16

  /** A block descriptor; `next` is the index of another descriptor or NULL. */
  datatype Block = Block(addr: nat, next: int, size: nat) {
    function End(): nat {
      addr + size
    }
  }

  type Table = seq<Block>

  /** The i-th element of a chain, NULL behind its end. */
  function Link(s: seq<int>, i: nat): int {
    if i < |s| then s[i] else NULL
  }

  /** Following next from head visits exactly the descriptors of s. */
  ghost predicate Chain(t: Table, head: int, s: seq<int>) {
    && head == Link(s, 0)
    && (forall i :: 0 <= i < |s| ==> 0 <= s[i] < |t|)
    && (forall i {:trigger t[s[i]]} :: 0 <= i < |s| ==> t[s[i]].next == Link(s, i + 1))
  }

  ghost predicate NoDup(s: seq<int>) {
    forall i, j :: 0 <= i < j < |s| ==> s[i] != s[j]
  }

  ghost predicate Disjoint(a: seq<int>, b: seq<int>) {
    forall x :: x in a ==> x !in b
  }

  /** The three lists share no descriptor, repeat none, and between them hold all n. */
  ghost predicate Partition(free: seq<int>, used: seq<int>, blank: seq<int>, n: nat) {
    && NoDup(free) && NoDup(used) && NoDup(blank)
    && Disjoint(free, used) && Disjoint(free, blank) && Disjoint(used, blank)
    && |free| + |used| + |blank| == n
  }

  ghost predicate InTable(t: Table, s: seq<int>) {
    forall i :: 0 <= i < |s| ==> 0 <= s[i] < |t|
  }

  /** The blocks of `tiles` follow one another without gap or overlap from base to top. */
  ghost predicate Tiles(t: Table, tiles: seq<int>, base: nat, top: nat) {
    && InTable(t, tiles)
    && (forall i :: 0 <= i < |tiles| ==> t[tiles[i]].size > 0 && t[tiles[i]].size % ALIGNMENT == 0)
    && (if tiles == [] then base == top
        else t[tiles[0]].addr == base && t[tiles[|tiles| - 1]].End() == top)
    && (forall i, j :: 0 <= i && j == i + 1 && j < |tiles| ==> t[tiles[i]].End() == t[tiles[j]].addr)
  }

  /** In increasing address order, not overlapping. */
  ghost predicate Ascending(t: Table, s: seq<int>) {
    && InTable(t, s)
    && forall i, j :: 0 <= i < j < |s| ==> t[s[i]].End() <= t[s[j]].addr
  }

  /** The first k neighbours are separated by a gap. */
  ghost predicate Apart(t: Table, s: seq<int>, k: nat) {
    && InTable(t, s)
    && forall i, j :: 0 <= i < k && j == i + 1 && j < |s| ==> t[s[i]].End() != t[s[j]].addr
  }

  lemma {:induction false} TilesAscend(t: Table, tiles: seq<int>, base: nat, top: nat, i: nat, j: nat)
    requires Tiles(t, tiles, base, top) && i < j < |tiles|
    ensures t[tiles[i]].End() <= t[tiles[j]].addr
    decreases j
  {
    if i + 1 < j {
      TilesAscend(t, tiles, base, top, i, j - 1);
    }
  }

  lemma {:induction false} TilesInRange(t: Table, tiles: seq<int>, base: nat, top: nat, i: nat)
    requires Tiles(t, tiles, base, top) && i < |tiles|
    ensures base <= t[tiles[i]].addr && t[tiles[i]].End() <= top
  {
    if 0 < i { TilesAscend(t, tiles, base, top, 0, i); }
    if i < |tiles| - 1 { TilesAscend(t, tiles, base, top, i, |tiles| - 1); }
  }

  ghost predicate Covers(b: Block, a: nat) {
    b.addr <= a < b.End()
  }

  /** Every address of [base, top) lies in exactly one block, and no other address in any. */
  lemma {:induction false} TilesCoverOnce(t: Table, tiles: seq<int>, base: nat, top: nat, a: nat)
    requires Tiles(t, tiles, base, top)
    ensures base <= a < top <==> exists i :: 0 <= i < |tiles| && Covers(t[tiles[i]], a)
    ensures forall i, j :: 0 <= i < j < |tiles| ==> !(Covers(t[tiles[i]], a) && Covers(t[tiles[j]], a))
  {
    forall i, j | 0 <= i < j < |tiles|
      ensures !(Covers(t[tiles[i]], a) && Covers(t[tiles[j]], a))
    {
      TilesAscend(t, tiles, base, top, i, j);
    }
    forall i | 0 <= i < |tiles|
      ensures base <= t[tiles[i]].addr && t[tiles[i]].End() <= top
    {
      TilesInRange(t, tiles, base, top, i);
    }
    if base <= a < top {
      var k := 0;
      while t[tiles[k]].End() <= a
        invariant 0 <= k < |tiles| && t[tiles[k]].addr <= a
        decreases |tiles| - k
      {
        k := k + 1;
      }
      assert Covers(t[tiles[k]], a);
    }
  }

  lemma TilesDistinct(t: Table, tiles: seq<int>, base: nat, top: nat)
    requires Tiles(t, tiles, base, top)
    ensures NoDup(tiles)
    ensures forall i, j :: 0 <= i < j < |tiles| ==> t[tiles[i]].addr < t[tiles[j]].addr
  {
    forall i, j | 0 <= i < j < |tiles|
      ensures t[tiles[i]].addr < t[tiles[j]].addr && tiles[i] != tiles[j]
    {
      TilesAscend(t, tiles, base, top, i, j);
    }
  }

  function Position(s: seq<int>, x: int): (i: nat)
    requires x in s
    ensures i < |s| && s[i] == x
  {
    if s[0] == x then 0 else 1 + Position(s[1..], x)
  }

  /** The table with t[i].next redirected; a NULL index changes nothing. */
  function Relink(t: Table, i: int, next: int): (r: Table)
    ensures |r| == |t|
  {
    if 0 <= i < |t| then t[i := t[i].(next := next)] else t
  }

  /** The element before position i of a chain, NULL at its start. */
  function Before(s: seq<int>, i: nat): int {
    if 0 < i <= |s| then s[i - 1] else NULL
  }

  /** Linking b in at position i of a chain, as insert_block does. */
  lemma SpliceChain(t: Table, head: int, s: seq<int>, i: nat, b: int)
    requires Chain(t, head, s) && NoDup(s) && i <= |s| && 0 <= b < |t| && b !in s
    ensures var t' := Relink(Relink(t, Before(s, i), b), b, Link(s, i));
            Chain(t', if i == 0 then b else head, s[..i] + [b] + s[i..])
  {
    var t' := Relink(Relink(t, Before(s, i), b), b, Link(s, i));
    var s' := s[..i] + [b] + s[i..];
    forall k | 0 <= k < |s'|
      ensures 0 <= s'[k] < |t| && t'[s'[k]].next == Link(s', k + 1)
    {
      if k < i {
        assert s'[k] == s[k];
      } else if k > i {
        assert s'[k] == s[k - 1] && s'[k] in s;
        assert k - 1 > i - 1;
      }
    }
  }

  /** Unlinking the element at position i of a chain. */
  lemma UnlinkChain(t: Table, head: int, s: seq<int>, i: nat)
    requires Chain(t, head, s) && NoDup(s) && i < |s|
    ensures Chain(Relink(t, Before(s, i), Link(s, i + 1)), if i == 0 then Link(s, 1) else head, s[..i] + s[i + 1..])
  {
    var t' := Relink(t, Before(s, i), Link(s, i + 1));
    var s' := s[..i] + s[i + 1..];
    forall k | 0 <= k < |s'|
      ensures 0 <= s'[k] < |t| && t'[s'[k]].next == Link(s', k + 1)
    {
      if k < i {
        assert s'[k] == s[k];
      } else {
        assert s'[k] == s[k + 1];
      }
    }
  }

  /** A chain is not disturbed by changes outside it. */
  lemma FrameChain(t: Table, t': Table, head: int, s: seq<int>)
    requires Chain(t, head, s) && |t'| == |t|
    requires forall i :: 0 <= i < |s| ==> t'[s[i]].next == t[s[i]].next
    ensures Chain(t', head, s)
  {
  }

  lemma FrameOne(t: Table, head: int, s: seq<int>, x: int, b: Block)
    requires Chain(t, head, s) && 0 <= x < |t| && x !in s
    ensures Chain(t[x := b], head, s)
  {
    assert forall i :: 0 <= i < |s| ==> s[i] in s;
    FrameChain(t, t[x := b], head, s);
  }
}
