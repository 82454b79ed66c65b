/**
  mmu_table_create, mmu_map, mmu_map_range and mmu_free (src/mmu.c) on table memory and the
  page pool.
 */
module Mmu {
  import opened PageBits
  import opened PageCells
  import opened PageAllocator
  import opened PageTable
  import opened PageTree
  import opened TableGrowth
  import opened MapMeaning
  import opened TableRelease

  class PageTables {
    var mem: Memory
    const pool: PagePool

    constructor (pool: PagePool)
      ensures this.pool == pool && mem == map[]
    {
      this.pool, mem := pool, map[];
    }

    ghost function Now(at: Layout): State
      reads `mem, pool.book
    {
      State(mem, pool.View(), at)
    }

    /** mmu_table_create, that is page_zalloc (src/mmu.c:16-19, src/page.c:191-198). */
    method NewTable() returns (p: nat)
      requires pool.Ok()
      modifies `mem, pool.book
      ensures pool.Ok() && |pool.View()| == |old(pool.View())|
      ensures p == 0 <==> FreeBelow(old(pool.View()), pool.pages) == 0
      ensures p == 0 ==> mem == old(mem) && pool.View() == old(pool.View())
      ensures p != 0 ==> pool.OnePage(pool.View(), p) && p % PAGE_SIZE == 0 && mem == old(mem)[p := ZeroTable()]
      ensures p != 0 ==>
                && old(pool.View())[pool.IndexOf(p)] == FREE
                && pool.View() == old(pool.View())[pool.IndexOf(p) := LAST]
    {
      p := pool.TakeOne();
      if p != 0 {
        mem := mem[p := ZeroTable()];
      }
    }

    /** One round of mmu_map's loop (src/mmu.c:38-58); 0 when no table page is left. */
    method Descend(tab: nat, level: nat, v: nat, ghost at: Layout) returns (next: nat, ghost at': Layout)
      requires pool.Ok() && Sound(pool, Now(at)) && 0 < level < 3
      requires NodeAt(level, v) in at && at[NodeAt(level, v)] == tab
      requires Walk(mem, at[Root], v).Hit? ==> Walk(mem, at[Root], v).level < level
      modifies `mem, pool.book
      ensures pool.Ok() && Grew(pool, old(Now(at)), Now(at'))
      ensures next == 0 ==> mem == old(mem) && pool.View() == old(pool.View()) && at' == at
      ensures next == 0 ==> NodeAt(level - 1, v) !in at && FreeBelow(pool.View(), pool.pages) == 0
      ensures next != 0 ==> NodeAt(level - 1, v) in at' && at'[NodeAt(level - 1, v)] == next
      ensures next != 0 ==> at' == at[NodeAt(level - 1, v) := next]
    {
      hide TreeOk, FreeBelow, Walk, IsValid, HasRwx, BranchEntry, Next, Vpn0, Vpn1, Vpn2, Cells, ChunksOk;
      LeafOnWalk(mem, at, level, v);
      EmptySlot(mem, at, level, v);
      GrewNothing(pool, Now(at));
      at' := at;
      var entry := TableAt(mem, tab)[VpnAt(level, v)];
      if IsValid(entry) {
        next := Next(entry);
        assert IsBranch(entry);
        assert next != 0 by { TreeParts(mem, at); }
      } else {
        ghost var s := Now(at);
        next := NewTable();
        NotBranch(entry);
        if next != 0 {
          GrowByOne(pool, s, level, v, next, pool.View());
          mem := Write(mem, tab, VpnAt(level, v), BranchEntry(next));
          at' := at[NodeAt(level - 1, v) := next];
        }
      }
    }

    /** The tree's root is tab and its tables are live pages. */
    ghost predicate Rooted(tab: nat, at: Layout)
      reads `mem, pool.book
    {
      pool.Ok() && Sound(pool, Now(at)) && at[Root] == tab
    }

    /** mmu_map's walk down to the target level (src/mmu.c:37-59); 0 when it runs out of pages. */
    method Reach(tab: nat, v: nat, level: nat, ghost at: Layout) returns (table: nat, ghost grown: Layout)
      requires Rooted(tab, at) && level < 3
      requires Walk(mem, tab, v).Hit? ==> Walk(mem, tab, v).level <= level
      modifies `mem, pool.book
      ensures Rooted(tab, grown) && Grew(pool, old(Now(at)), Now(grown))
      ensures table == 0 <==> FreeBelow(old(pool.View()), pool.pages) < Missing(at, level, v)
      ensures table == 0 ==> FreeBelow(pool.View(), pool.pages) == 0 && Missing(grown, level, v) > 0
      ensures table != 0 ==> NodeAt(level, v) in grown && grown[NodeAt(level, v)] == table
      ensures OnPath(at, grown, level, v)
    {
      hide TreeOk, FreeBelow, Walk, Vpn0, Vpn1, Vpn2, Cells, ChunksOk, KeepsTables, TakesPages, Backed;
      RootPlaced(mem, at);
      GrewNothing(pool, Now(at));
      table, grown := tab, at;
      ghost var start := Now(at);
      var current := 2;
      while current > level
        invariant level <= current < 3 && Rooted(tab, grown) && Grew(pool, start, Now(grown))
        invariant NodeAt(current, v) in grown && grown[NodeAt(current, v)] == table
        invariant |grown| - |at| + Missing(grown, level, v) == Missing(at, level, v)
        invariant table != 0 && OnPath(at, grown, level, v)
        decreases current
      {
        ghost var t := Now(grown);
        ghost var had := grown;
        assert Walk(mem, tab, v) == Walk(start.mem, tab, v);
        table, grown := Descend(table, current, v, had);
        GrewTrans(pool, start, t, Now(grown));
        GrewRoot(pool, t, Now(grown));
        if table == 0 {
          return;
        }
        OneMoreTable(had, level, v, current, table);
        current := current - 1;
      }
      NothingMissing(mem, grown, level, v);
    }

    /**
      mmu_map (src/mmu.c:21-73).  It fails exactly on bad arguments or when the pool has fewer
      pages than the walk lacks tables, and then no translation changes; otherwise it maps the
      page.  `grown` is the layout with the tables it added, before the leaf cut anything off.
     */
    method Map(tab: nat, v: nat, p: nat, level: nat, bits: nat, ghost at: Layout)
      returns (ok: bool, ghost grown: Layout)
      requires tab != 0 ==> Rooted(tab, at)
      requires tab != 0 && HasRwx(bits) && Walk(mem, tab, v).Hit? ==> Walk(mem, tab, v).level <= level
      modifies `mem, pool.book
      ensures tab == 0 || level > 2 || !HasRwx(bits) ==>
                !ok && mem == old(mem) && pool.View() == old(pool.View()) && grown == at
      ensures tab != 0 && level <= 2 && HasRwx(bits) ==>
                (ok <==> FreeBelow(old(pool.View()), pool.pages) >= Missing(at, level, v))
      ensures tab != 0 && level <= 2 && HasRwx(bits) && !ok ==>
                FreeBelow(pool.View(), pool.pages) == 0 && Missing(grown, level, v) > 0
      ensures tab != 0 && !ok ==> Rooted(tab, grown) && Grew(pool, old(Now(at)), Now(grown))
      ensures ok ==> Rooted(tab, Prune(grown, level, v)) && Maps(old(mem), mem, tab, v, p, level, bits)
      ensures tab != 0 ==> OnPath(at, grown, level, v)
      ensures ok ==>
                && NodeAt(level, v) in grown && KeepsTables(old(Now(at)), Now(grown))
                && TakesPages(pool, old(Now(at)), Now(grown))
    {
      hide TreeOk, FreeBelow, Walk, VpnAt, NodeAt, Prune, Cells, ChunksOk, HasRwx;
      hide LeafEntry, Missing, Grew, Sound, Maps, KeepsTables, TakesPages;
      ok, grown := false, at;
      if tab == 0 { return; }
      GrewNothing(pool, Now(at));
      if level > 2 || !HasRwx(bits) { return; }
      var table;
      table, grown := Reach(tab, v, level, at);
      if table == 0 { return; }
      ok := true;
      MapStep(pool, old(Now(at)), Now(grown), level, v, p, bits);
      GrewRoot(pool, old(Now(at)), Now(grown));
      IndexAt(level, v);
      mem := Write(mem, table, VpnAt(level, v), LeafEntry(p, level, bits));
    }

    /**
      mmu_map_range (src/mmu.c:181-206): k level-sized pages from the aligned-down start are
      mapped, in order, and nothing else is; it stops early only on bad arguments or when the
      pool is empty.
     */
    method MapRange(tab: nat, startVirt: nat, endVirt: nat, startPhys: nat, level: nat, bits: nat, ghost at: Layout)
      returns (k: nat, ghost at': Layout)
      requires tab != 0 ==> Rooted(tab, at)
      requires level < 3
      requires tab != 0 ==>
                NoLeafAbove(mem, tab, AlignDown(startVirt, level), RangeBytes(startVirt, endVirt, level), level)
      modifies `mem, pool.book
      ensures k * PageSize(level) <= RangeBytes(startVirt, endVirt, level)
      ensures tab != 0 ==>
                && Rooted(tab, at')
                && MapsRange(old(mem), mem, tab, AlignDown(startVirt, level), startPhys, level, bits, k)
      ensures tab == 0 || !HasRwx(bits) ==> k == 0 && mem == old(mem) && pool.View() == old(pool.View())
      ensures k * PageSize(level) < RangeBytes(startVirt, endVirt, level) ==>
                || tab == 0 || !HasRwx(bits)
                || (FreeBelow(pool.View(), pool.pages) == 0
                    && Missing(at', level, PageAddress(startVirt, level, k)) > 0)
    {
      hide TreeOk, FreeBelow, Walk, NodeAt, Prune, Cells, ChunksOk, HasRwx, Missing, Sound, Grew, Maps, MapsRange;
      hide NoLeafAbove, KeepsTables, TakesPages, AlignDown, RangeBytes;
      var start, bytes := AlignDown(startVirt, level), RangeBytes(startVirt, endVirt, level);
      AlignedRange(startVirt, endVirt, level);
      var size := PageSize(level);
      k, at' := 0, at;
      NoPagesYet(mem, tab, start, startPhys, level, bits);
      var i := 0;
      while i < bytes
        invariant i == k * size <= bytes
        invariant tab != 0 ==> Rooted(tab, at') && NoLeafAbove(mem, tab, start, bytes, level)
        invariant tab != 0 ==> MapsRange(old(mem), mem, tab, start, startPhys, level, bits, k)
        invariant tab == 0 || !HasRwx(bits) ==>
                  k == 0 && mem == old(mem) && pool.View() == old(pool.View()) && at' == at
      {
        WholePages(bytes, k, level);
        ghost var before := Now(at');
        if tab != 0 { LeafLevel(mem, tab, start, bytes, level, start + i); }
        var ok;
        ghost var grown;
        ok, grown := Map(tab, start + i, startPhys + i, level, bits, at');
        if !ok {
          if tab != 0 {
            GrewRoot(pool, before, Now(grown));
            FailedMap(pool, before, Now(grown), old(mem), start, startPhys, level, bits, k);
          }
          at' := grown;
          break;
        }
        at' := Prune(grown, level, start + i);
        OneMorePage(old(mem), before.mem, mem, tab, start, bytes, startPhys, level, bits, k);
        k := k + 1;
        i := i + size;
      }
    }

    /**
      mmu_free (src/mmu.c:78-101) of the table `node` of a tree: every table page below it and
      its own goes back to the pool once, and nothing else does.
     */
    method FreeTable(tab: nat, ghost node: Node, ghost at: Layout) returns (ghost freed: seq<nat>)
      requires tab != 0 ==> pool.Ok() && Subtree(pool, Now(at), node) && at[node] == tab
      modifies `mem, pool.book
      ensures tab == 0 ==> mem == old(mem) && pool.View() == old(pool.View())
      ensures tab != 0 ==> pool.Ok() && Gone(pool, old(Now(at)), Now(at), node, freed)
      decreases Height(node), 1
    {
      hide Cells, ChunksOk, Progress, Subtree, Gone;
      freed := [];
      if tab == 0 { return; }
      ghost var s := Now(at);
      SubtreeProper(pool, s, node);
      NothingDone(pool, s, node);
      var i := 0;
      while i < ENTRIES
        invariant 0 <= i <= ENTRIES && pool.Ok() && Progress(pool, s, Now(at), node, i, freed)
      {
        freed := FreeEntry(tab, i, node, at, s, freed);
        i := i + 1;
      }
      StillLive(pool, s, Now(at), node, ENTRIES, freed);
      ghost var t := Now(at);
      pool.FreeOne(tab);
      TableDone(pool, s, t, pool.View(), node, freed);
      freed := freed + [tab];
    }

    /** One round of mmu_free's loop (src/mmu.c:88-95). */
    method FreeEntry(tab: nat, i: nat, ghost node: Node, ghost at: Layout, ghost s: State, ghost freed: seq<nat>)
      returns (ghost freed': seq<nat>)
      requires pool.Ok() && i < ENTRIES && s.at == at && node in at && at[node] == tab
      requires Subtree(pool, s, node) && Progress(pool, s, Now(at), node, i, freed)
      modifies `mem, pool.book
      ensures pool.Ok() && Progress(pool, s, Now(at), node, i + 1, freed')
      decreases Height(node), 0
    {
      hide Cells, ChunksOk, Progress, Subtree, Gone, HasRwx, IsValid, Next, Cut, Frame, Blank, Once, Nodes;
      ghost var t := Now(at);
      EntrySeen(pool, s, t, node, i, freed);
      ghost var more, u := [], t;
      ghost var k: set<Node> := {};
      NothingGone(pool, t);
      var entry := TableAt(mem, tab)[i];
      if IsValid(entry) {
        if !HasRwx(entry) {
          KidReady(pool, s, t, node, i, freed);
          SubtreeProper(pool, t, Kid(node, i));
          more := FreeTable(Next(entry), Kid(node, i), at);
          u, k := Now(at), Nodes(at, Kid(node, i));
          GoneParts(pool, t, u, Kid(node, i), more);
        }
        mem := mem[tab := TableAt(mem, tab)[i := 0]];
        ZeroEntries();
      }
      EntryDone(pool, s, t, u, mem, node, i, k, freed, more);
      freed' := freed + more;
    }
  }
}
