/**
  What mmu_map and mmu_map_range do to translations and permissions (src/mmu.c:21-73, 181-206).
 */
module MapMeaning {
  import opened Arithmetic
  import opened Options
  import opened PageCells
  import opened PageAllocator
  import opened PageTable
  import opened PageTree
  import opened TableGrowth

  /** What one mapped page means: its addresses go to p's page, every other keeps its meaning. */
  ghost predicate Maps(mem: Memory, mem': Memory, root: nat, v: nat, p: nat, level: nat, bits: nat)
    requires level < 3
  {
    forall w :: Walk(mem', root, w) == if SamePage(v, w, level) then Hit(level, LeafEntry(p, level, bits))
        else Walk(mem, root, w)
  }

  lemma MapsMeans(mem: Memory, mem': Memory, root: nat, v: nat, p: nat, level: nat, bits: nat, w: nat, perms: nat)
    requires root != 0 && level < 3 && bits < 0x400 && HasRwx(bits) && perms < 0x400
    requires Maps(mem, mem', root, v, p, level, bits)
    ensures Translate(mem', root, w) ==
            if SamePage(v, w, level) then Some(PageBase(p, level) + w % PageSize(level)) else Translate(mem, root, w)
    ensures AccessOk(mem', root, w, perms) <==>
            if SamePage(v, w, level) then HasBits(SetValid(bits), perms) else AccessOk(mem, root, w, perms)
  {
    hide Walk, Translate, AccessOk, LeafEntry, HasRwx, HasBits, SamePage, PageBase, Physical;
    OneWalk(mem, root, w, perms);
    OneWalk(mem', root, w, perms);
    LeafPhysical(p, level, bits, w);
    LeafPerms(p, level, bits, perms);
  }

  lemma SameWalksMean(mem: Memory, mem': Memory, root: nat, w: nat, perms: nat)
    requires root != 0 && SameWalks(mem, mem', root)
    ensures Translate(mem', root, w) == Translate(mem, root, w)
    ensures AccessOk(mem', root, w, perms) <==> AccessOk(mem, root, w, perms)
  {
    hide Walk, Translate, AccessOk;
    OneWalk(mem, root, w, perms);
    OneWalk(mem', root, w, perms);
  }

  lemma IndexAt(level: nat, v: nat)
    requires level < 3
    ensures VpnAt(level, v) < ENTRIES
  {
  }

  /** The walk down, then the leaf. */
  lemma MapStep(pool: PagePool, s: State, t: State, level: nat, v: nat, p: nat, bits: nat)
    requires Grew(pool, s, t) && level < 3 && HasRwx(bits)
    requires NodeAt(level, v) in t.at
    ensures Root in s.at && t.at[NodeAt(level, v)] in t.mem
    ensures var mem' := Write(t.mem, t.at[NodeAt(level, v)], VpnAt(level, v), LeafEntry(p, level, bits));
            var at' := Prune(t.at, level, v);
            && Sound(pool, State(mem', t.cells, at')) && Root in at' && at'[Root] == s.at[Root]
            && Maps(s.mem, mem', s.at[Root], v, p, level, bits)
            && KeepsTables(s, State(mem', t.cells, t.at)) && TakesPages(pool, s, State(mem', t.cells, t.at))
  {
    hide TreeOk, FreeBelow, Walk, SamePage, LeafEntry, HasRwx, VpnAt, NodeAt, Prune, Backed;
    LeafIsLeaf(p, level, bits);
    LeafWritten(pool, t, level, v, LeafEntry(p, level, bits));
    GrewRoot(pool, s, t);
    IndexAt(level, v);
  }

  lemma RootPlaced(mem: Memory, at: Layout)
    requires TreeOk(mem, at)
    ensures Root in at && at[Root] in mem && at[Root] != 0
  {
  }

  lemma GrewRoot(pool: PagePool, s: State, t: State)
    requires Grew(pool, s, t)
    ensures Root in s.at && Root in t.at && t.at[Root] == s.at[Root]
  {
    hide FreeBelow, Walk;
  }

  lemma OneMoreTable(at: Layout, level: nat, v: nat, current: nat, table: nat)
    requires level < current < 3
    ensures var at' := at[NodeAt(current - 1, v) := table];
            |at'| - |at| + Missing(at', level, v) == Missing(at, level, v)
  {
  }

  lemma NothingMissing(mem: Memory, at: Layout, level: nat, v: nat)
    requires TreeOk(mem, at) && level < 3 && NodeAt(level, v) in at
    ensures Missing(at, level, v) == 0
  {
  }

  /** Storing the leaf: the walks it changes, and the tables that stay in the tree. */
  lemma LeafWritten(pool: PagePool, s: State, level: nat, v: nat, e: nat)
    requires Sound(pool, s) && level < 3 && NodeAt(level, v) in s.at && IsLeaf(e)
    ensures s.at[NodeAt(level, v)] in s.mem
    ensures var mem' := Write(s.mem, s.at[NodeAt(level, v)], VpnAt(level, v), e);
            var at' := Prune(s.at, level, v);
            && Sound(pool, State(mem', s.cells, at')) && Root in at' && at'[Root] == s.at[Root]
            && (forall a :: a !in s.at.Values ==> TableAt(mem', a) == TableAt(s.mem, a))
            && (forall w :: Walk(mem', s.at[Root], w) == if SamePage(v, w, level) then Hit(level, e)
                 else Walk(s.mem, s.at[Root], w))
  {
    hide TreeOk, Walk, Vpn0, Vpn1, Vpn2, SamePage, IsValid, HasRwx;
    PutLeafOk(s.mem, s.at, level, v, e);
    RootPlaced(s.mem, s.at);
    var mem' := Write(s.mem, s.at[NodeAt(level, v)], VpnAt(level, v), e);
    forall w
      ensures Walk(mem', s.at[Root], w) == if SamePage(v, w, level) then Hit(level, e) else Walk(s.mem, s.at[Root], w)
    {
      PutLeafWalk(s.mem, s.at, level, v, e, w);
    }
    assert s.at[NodeAt(level, v)] in s.at.Values;
  }

  function AlignDown(x: nat, level: nat): nat
    requires level < 3
  {
    x / PageSize(level) * PageSize(level)
  }

  /** The address of page k, counted from the start of the range. */
  function PageAddress(startVirt: nat, level: nat, k: nat): nat
    requires level < 3
  {
    Times(0, k, PageSize(level));
    AlignDown(startVirt, level) + k * PageSize(level)
  }

  /** No page larger than the given level covers an address of the range. */
  ghost predicate NoLeafAbove(mem: Memory, root: nat, start: nat, bytes: nat, level: nat) {
    forall w :: start <= w < start + bytes && Walk(mem, root, w).Hit? ==> Walk(mem, root, w).level <= level
  }

  /** What w finds after k pages from start were mapped, one after the other. */
  function RangeHit(start: nat, p: nat, level: nat, bits: nat, k: nat, w: nat, before: Hit): Hit
    requires level < 3
  {
    if k == 0 then before
    else if SamePage(start + (k - 1) * PageSize(level), w, level)
        then Hit(level, LeafEntry(p + (k - 1) * PageSize(level), level, bits))
    else RangeHit(start, p, level, bits, k - 1, w, before)
  }

  ghost predicate MapsRange(mem: Memory, mem': Memory, root: nat, start: nat, p: nat, level: nat, bits: nat, k: nat)
    requires level < 3
  {
    forall w :: Walk(mem', root, w) == RangeHit(start, p, level, bits, k, w, Walk(mem, root, w))
  }

  /** The 64-bit difference of the aligned ends; it wraps when the end lies before the start. */
  function RangeBytes(startVirt: nat, endVirt: nat, level: nat): nat
    requires level < 3
  {
    (RoundUp(endVirt, PageSize(level)) - AlignDown(startVirt, level)) % 0x1_0000_0000_0000_0000
  }

  /** The whole pages of a range that ends behind its start: from below it to above it, and none too many. */
  lemma RangeCovers(x: nat, y: nat, level: nat)
    requires level < 3 && x <= y && y < 0xFFFF_FFFF_C000_0000
    ensures var size := (match level case 0 => 4096 case 1 => 2097152 case 2 => 1073741824);
            var start, bytes := AlignDown(x, level), RangeBytes(x, y, level);
            && start % size == 0 && bytes % size == 0
            && start <= x < start + size && y <= start + bytes < y + size
  {
    var size := PageSize(level);
    Floored(x, size);
    Floored(y + size - 1, size);
    AlignedRange(x, y, level);
    hide RangeBytes;
  }

  lemma Floored(x: nat, size: nat)
    requires size > 0
    ensures x / size * size <= x < x / size * size + size && x / size * size % size == 0
  {
    assert x == size * (x / size) + x % size;
    QuotientRemainder(x / size * size, x / size, size, 0);
  }

  lemma AlignedRange(x: nat, y: nat, level: nat)
    requires level < 3
    ensures RangeBytes(x, y, level) % PageSize(level) == 0
    ensures x <= y && RoundUp(y, PageSize(level)) < 0x1_0000_0000_0000_0000 ==>
              RangeBytes(x, y, level) == RoundUp(y, PageSize(level)) - AlignDown(x, level)
  {
    var size := PageSize(level);
    var a, b := x / size, (y + size - 1) / size;
    assert a * size <= x && y <= b * size;
    assert b * size - a * size == (b - a) * size;
    WrappedMultiple(b - a, level);
  }

  lemma WrappedMultiple(d: int, level: nat)
    requires level < 3
    ensures d * PageSize(level) % 0x1_0000_0000_0000_0000 % PageSize(level) == 0
  {
    match level
    case 0 => WrapMultiple(d, PAGE, 0x10_0000_0000_0000);
    case 1 => WrapMultiple(d, MEGA, 0x800_0000_0000);
    case 2 => WrapMultiple(d, GIGA, 0x4_0000_0000);
  }

  /** The loop's step never jumps past the end of an aligned range. */
  lemma WholePages(bytes: nat, k: nat, level: nat)
    requires level < 3 && bytes % PageSize(level) == 0 && k * PageSize(level) < bytes
    ensures (k + 1) * PageSize(level) <= bytes
  {
  }

  lemma NoPagesYet(mem: Memory, root: nat, start: nat, p: nat, level: nat, bits: nat)
    requires level < 3
    ensures MapsRange(mem, mem, root, start, p, level, bits, 0)
  {
    hide Walk;
  }

  lemma LeafLevel(mem: Memory, root: nat, start: nat, bytes: nat, level: nat, w: nat)
    requires NoLeafAbove(mem, root, start, bytes, level) && start <= w < start + bytes
    ensures Walk(mem, root, w).Hit? ==> Walk(mem, root, w).level <= level
  {
    hide Walk;
  }

  lemma FailedMap(pool: PagePool, s: State, t: State, mem: Memory, start: nat, p: nat, level: nat, bits: nat, k: nat)
    requires Grew(pool, s, t) && level < 3 && Root in t.at
    requires MapsRange(mem, s.mem, t.at[Root], start, p, level, bits, k)
    ensures MapsRange(mem, t.mem, t.at[Root], start, p, level, bits, k)
  {
    hide Walk, Sound, FreeBelow, RangeHit;
    GrewRoot(pool, s, t);
  }

  lemma OneMorePage(mem: Memory, m: Memory, m': Memory, root: nat, start: nat, bytes: nat, p: nat, level: nat,
      bits: nat, k: nat)
    requires level < 3 && NoLeafAbove(m, root, start, bytes, level)
    requires MapsRange(mem, m, root, start, p, level, bits, k)
    requires Maps(m, m', root, start + k * PageSize(level), p + k * PageSize(level), level, bits)
    ensures MapsRange(mem, m', root, start, p, level, bits, k + 1)
    ensures NoLeafAbove(m', root, start, bytes, level)
  {
    hide Walk, SamePage, LeafEntry;
  }

  /** A range of at most 2^39 bytes: its k pages are k different ones. */
  lemma PagesDiffer(start: nat, level: nat, i: nat, j: nat)
    requires level < 3 && start % PageSize(level) == 0
    requires i < j && (j - i) * PageSize(level) < 0x80_0000_0000
    ensures !SamePage(start + i * PageSize(level), start + j * PageSize(level), level)
  {
    var size := PageSize(level);
    var span := 0x80_0000_0000 / size;
    var q := start / size;
    assert (start + i * size) / size == q + i;
    assert (start + j * size) / size == q + j;
    assert j - i < span;
    CloseResidues(q + i, q + j, span);
  }

  lemma CloseResidues(a: nat, b: nat, n: nat)
    requires a < b < a + n
    ensures a % n != b % n
  {
    var x, y := a / n, b / n;
    var r := a % n;
    assert a == n * x + r;
    if r == b % n {
      assert b == n * y + r;
      assert b - a == n * (y - x);
      Multiples(n, y - x);
      assert false;
    }
  }

  /** An address and the page it lies in. */
  lemma InPage(start: nat, level: nat, i: nat, o: nat)
    requires level < 3 && start % PageSize(level) == 0 && o < PageSize(level)
    ensures SamePage(start + i * PageSize(level), start + i * PageSize(level) + o, level)
    ensures (start + i * PageSize(level) + o) % PageSize(level) == o
  {
    var size := PageSize(level);
    var q := start / size;
    assert start + i * size == (q + i) * size;
    assert (start + i * size) / size == q + i;
    assert (start + i * size + o) / size == q + i;
  }

  lemma FewerPages(level: nat, k: nat, j: nat)
    requires level < 3 && j < k
    ensures j * PageSize(level) < k * PageSize(level)
  {
    Scaled(j, k, PageSize(level));
  }

  lemma PageTransitive(u: nat, v: nat, w: nat, level: nat)
    requires level < 3 && SamePage(u, w, level) && !SamePage(u, v, level)
    ensures !SamePage(v, w, level)
  {
  }

  lemma {:induction false} RangeHitInside(start: nat, p: nat, level: nat, bits: nat, k: nat, i: nat, w: nat,
      before: Hit)
    requires level < 3 && start % PageSize(level) == 0 && i < k && k * PageSize(level) <= 0x80_0000_0000
    requires SamePage(start + i * PageSize(level), w, level)
    ensures RangeHit(start, p, level, bits, k, w, before) == Hit(level, LeafEntry(p + i * PageSize(level), level, bits))
    decreases k
  {
    hide LeafEntry, PageSize, SamePage;
    if i < k - 1 {
      FewerPages(level, k, k - 1 - i);
      FewerPages(level, k, k - 1);
      PagesDiffer(start, level, i, k - 1);
      PageTransitive(start + i * PageSize(level), start + (k - 1) * PageSize(level), w, level);
      RangeHitInside(start, p, level, bits, k - 1, i, w, before);
    }
  }

  lemma {:induction false} RangeHitOutside(start: nat, p: nat, level: nat, bits: nat, k: nat, w: nat, before: Hit)
    requires level < 3 && forall i :: 0 <= i < k ==> !SamePage(start + i * PageSize(level), w, level)
    ensures RangeHit(start, p, level, bits, k, w, before) == before
  {
    hide SamePage, LeafEntry;
    if k > 0 {
      RangeHitOutside(start, p, level, bits, k - 1, w, before);
    }
  }

  /** Rounding down and stepping whole pages commute. */
  lemma PageBaseStep(p: nat, level: nat, i: nat)
    requires level < 3
    ensures PageBase(p + i * PageSize(level), level)
              == (AlignDown(p, level) + i * PageSize(level)) % 0x100_0000_0000_0000
  {
    var size := PageSize(level);
    var q, r := p / size, p % size;
    var x := p + i * size;
    assert x == (q + i) * size + r;
    QuotientRemainder(x, q + i, size, r);
  }

  /**
    mmu_map_range's k pages: each address of the range goes to the aligned-down start_phys plus
    its distance from the aligned-down start, as long as the range is no longer than the 39-bit
    address space.
   */
  lemma RangeInside(mem: Memory, mem': Memory, root: nat, start: nat, p: nat, level: nat, bits: nat, k: nat, i: nat,
      o: nat, perms: nat)
    requires root != 0 && level < 3 && bits < 0x400 && HasRwx(bits) && perms < 0x400
    requires start % PageSize(level) == 0 && i < k && k * PageSize(level) <= 0x80_0000_0000 && o < PageSize(level)
    requires MapsRange(mem, mem', root, start, p, level, bits, k)
    ensures var w := start + i * PageSize(level) + o;
            && Translate(mem', root, w) == Some((AlignDown(p, level) + i * PageSize(level)) % 0x100_0000_0000_0000 + o)
            && (AccessOk(mem', root, w, perms) <==> HasBits(SetValid(bits), perms))
  {
    var w, q := start + i * PageSize(level) + o, p + i * PageSize(level);
    InPage(start, level, i, o);
    RangeHitInside(start, p, level, bits, k, i, w, Walk(mem, root, w));
    OneWalk(mem', root, w, perms);
    LeafPhysical(q, level, bits, w);
    LeafPerms(q, level, bits, perms);
    PageBaseStep(p, level, i);
    hide *;
  }

  /** Every address outside those pages keeps its meaning. */
  lemma RangeOutside(mem: Memory, mem': Memory, root: nat, start: nat, p: nat, level: nat, bits: nat, k: nat, w: nat,
      perms: nat)
    requires root != 0 && level < 3 && MapsRange(mem, mem', root, start, p, level, bits, k)
    requires forall i :: 0 <= i < k ==> !SamePage(start + i * PageSize(level), w, level)
    ensures Translate(mem', root, w) == Translate(mem, root, w)
    ensures AccessOk(mem', root, w, perms) <==> AccessOk(mem, root, w, perms)
  {
    hide Walk, Translate, AccessOk, SamePage, LeafEntry, RangeHit;
    RangeHitOutside(start, p, level, bits, k, w, Walk(mem, root, w));
    OneWalk(mem, root, w, perms);
    OneWalk(mem', root, w, perms);
  }
}
