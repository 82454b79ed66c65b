/**
  Whole runs of the file operations: what is written comes back, and which files and
  writes the code does not serve.
 */
module FileRuns {
  import opened Arithmetic
  import opened BlockStore
  import opened ZoneTree
  import opened ZoneMap
  import opened ZoneGrowth
  import opened FileBytes
  import opened MinixFile

  ghost function Concat(bufs: seq<seq<Byte>>): seq<Byte> {
    if bufs == [] then [] else Concat(bufs[..|bufs| - 1]) + bufs[|bufs| - 1]
  }

  lemma {:induction false} ConcatPrefix(bufs: seq<seq<Byte>>, i: nat)
    requires i <= |bufs|
    ensures |Concat(bufs[..i])| <= |Concat(bufs)|
    decreases |bufs|
  {
    if i == |bufs| {
      assert bufs[..i] == bufs;
    } else {
      var init := bufs[..|bufs| - 1];
      assert init[..i] == bufs[..i];
      ConcatPrefix(init, i);
    }
  }

  lemma ConcatNext(bufs: seq<seq<Byte>>, i: nat)
    requires i < |bufs|
    ensures Concat(bufs[..i + 1]) == Concat(bufs[..i]) + bufs[i]
  {
    assert bufs[..i + 1][..i] == bufs[..i];
  }

  lemma NothingJoined()
    ensures Concat([]) == []
  {
  }

  /** Appends buffers one after the other; spins exactly when the disk cannot hold them all. */
  method AppendAll(f: OpenFile, bufs: seq<seq<Byte>>) returns (hung: bool)
    requires f.Appendable() && f.size + |Concat(bufs)| < BLOCK_SIZE * MAX_ZONES
    modifies f
    ensures hung <==> old(f.FreeZones()) < NeededUpTo(old(f.n), (old(f.size) + |Concat(bufs)|) / BLOCK_SIZE + 1)
    ensures !hung ==> f.Appendable() && f.Text() == old(f.Text()) + Concat(bufs)
    ensures !hung ==> f.size == old(f.size) + |Concat(bufs)|
  {
    hide OpenFile.At, OpenFile.InZone, OpenFile.TreeOk, OpenFile.FreeZones, OpenFile.Text, NeededUpTo, Snapshot.Wrote;
    hide Concat;
    NothingJoined();
    var i := 0;
    hung := false;
    ghost var n0, size0, goal := f.n, f.size, (f.size + |Concat(bufs)|) / BLOCK_SIZE + 1;
    assert bufs[..0] == [] && bufs[..|bufs|] == bufs;
    NoneNeeded(f.n, f.n);
    while i < |bufs|
      invariant 0 <= i <= |bufs| && !hung && f.Appendable()
      invariant f.size == size0 + |Concat(bufs[..i])| && n0 <= f.n
      invariant f.Text() == old(f.Text()) + Concat(bufs[..i])
      invariant f.FreeZones() == old(f.FreeZones()) - NeededUpTo(n0, f.n)
    {
      ConcatNext(bufs, i);
      ConcatPrefix(bufs, i + 1);
      ghost var n1, next := f.n, (f.size + |bufs[i]|) / BLOCK_SIZE + 1;
      MoreZones(f.size, f.size + |bufs[i]|, size0 + |Concat(bufs)|);
      NeededSplit(n0, n1, next);
      var r := f.Append(bufs[i]);
      if r == Hangs {
        NeededMonotone(n0, next, goal);
        return true;
      }
      i := i + 1;
    }
  }

  lemma MoreZones(a: nat, b: nat, c: nat)
    requires a <= b <= c
    ensures a / BLOCK_SIZE <= b / BLOCK_SIZE <= c / BLOCK_SIZE
  {
  }

  /**
    A new file, any appends, back to the start, one read: exactly the first bytes of what
    was appended.  It spins only if the disk has too few zones for the file.
   */
  method RoundTrip(disk: Disk, zmap: Bitmap, firstDataZone: U32, numZones: nat, bufs: seq<seq<Byte>>, count: UInt64)
    returns (r: Outcome<seq<Byte>>)
    requires 0 < numZones <= 8 * |zmap| && firstDataZone + numZones < 0x1_0000_0000 && Taken(zmap, 0)
    requires |Concat(bufs)| < BLOCK_SIZE * MAX_ZONES
    ensures var all := Concat(bufs);
            && (r == Hangs <==> FreeCount(UsedZones(zmap, firstDataZone), firstDataZone, numZones)
                                < 1 + NeededUpTo(1, |all| / BLOCK_SIZE + 1))
            && (r.Returns? ==> r.value == all[..if count < |all| then count else |all|])
  {
    hide OpenFile.FsOk, OpenFile.InZone, OpenFile.TreeOk, OpenFile.Stored, OpenFile.Ahead, NeededUpTo, FreeCount;
    hide OpenFile.ReadLimit, Offset, OffsetOk, Unsigned;
    var f := new OpenFile(disk, zmap, firstDataZone, numZones);
    var created := f.OpenNew();
    if created == Hangs { return Hangs; }
    f.StoredLength();
    assert f.Text() == [];
    var hung := AppendAll(f, bufs);
    if hung { return Hangs; }
    ghost var all := f.Stored();
    f.StoredLength();
    assert all[..f.size] == Concat(bufs);
    var at := f.Lseek(0, SEEK_SET);
    var overrun;
    ghost var q;
    r, overrun, q := f.Read(count, 0);
    assert f.Stored() == all;
  }

  /** Holes add nothing, and only holes do. */
  lemma {:induction false} OccupiedGrows(view: PointerView, zones: Zones, lo: nat, mid: nat, hi: nat)
    requires lo <= mid <= hi <= MAX_ZONES
    ensures |Occupied(view, zones, lo, mid)| <= |Occupied(view, zones, lo, hi)|
    ensures |Occupied(view, zones, lo, mid)| == |Occupied(view, zones, lo, hi)| <==> Holes(view, zones, mid, hi)
    decreases hi
  {
    hide Slot;
    if mid < hi {
      OccupiedGrows(view, zones, lo, mid, hi - 1);
    }
  }

  /**
    A walk from position p sees every occupied slot behind it if and only if there is a
    single-indirect zone, or p is already behind it, or the double-indirect part is empty:
    get_next_zone does not go past a missing single-indirect zone (src/minix3.c:501-541).
   */
  lemma EnumeratesAll(view: PointerView, zones: Zones, p: nat)
    requires p < MAX_ZONES
    ensures Occupied(view, zones, p + 1, Horizon(zones, p)) == Occupied(view, zones, p + 1, MAX_ZONES)
            <==> zones[ZONE_INDIR] != 0 || p >= FIRST_DOUBLE || Holes(view, zones, FIRST_DOUBLE, MAX_ZONES)
  {
    hide Slot;
    if p < FIRST_DOUBLE && zones[ZONE_INDIR] == 0 {
      OccupiedGrows(view, zones, p + 1, FIRST_DOUBLE, MAX_ZONES);
      if Holes(view, zones, FIRST_DOUBLE, MAX_ZONES) {
        OccupiedOverHoles(view, zones, p + 1, FIRST_DOUBLE, MAX_ZONES);
      }
    }
  }

  /** The position fields of a descriptor. */
  datatype Place = Place(cur: Cursor, fpBlock: U32, fpByte: nat, filePointer: nat, totalRead: nat)

  /** lseek to a byte of the file and reading up to it from the start end in the same position. */
  method SeekLikeRead(f: OpenFile, offset: Int64) returns (bySeek: Place, byRead: Place)
    requires f.TreeOk() && 0 <= offset <= f.size && f.n == f.size / BLOCK_SIZE + 1
    modifies f
    ensures byRead == bySeek && bySeek.totalRead == offset
  {
    hide OpenFile.TreeOk, OpenFile.Stored, OpenFile.Ahead, OpenFile.ReadLimit, Flat, Slot, CursorAt, Offset, OffsetOk;
    hide Unsigned, Signed, TruncatedDiv, TruncatedMod;
    FirstZone(f);
    var at := f.Lseek(offset, SEEK_SET);
    bySeek := Place(f.cur, f.fpBlock, f.fpByte, f.filePointer, f.totalRead);
    at := f.Lseek(0, SEEK_SET);
    var r, overrun, q := f.Read(offset, 0);
    byRead := Place(f.cur, f.fpBlock, f.fpByte, f.filePointer, f.totalRead);
  }

  function PlaceOf(f: OpenFile): Place
    reads f
  {
    Place(f.cur, f.fpBlock, f.fpByte, f.filePointer, f.totalRead)
  }

  /** The byte lseek reaches for a target that is not negative: the target, or the same offset in the last zone. */
  function Landing(target: nat, n: nat): nat
    requires n > 0
  {
    if target / BLOCK_SIZE < n then target else BLOCK_SIZE * (n - 1) + target % BLOCK_SIZE
  }

  /** From byte t, lseek by d with whence 1 does what lseek to t + d with whence 0 does. */
  method SeekFromHere(f: OpenFile, d: Int64, ghost t: nat) returns (here: Place, start: Place, skipped: int)
    requires f.At(t) && 0 <= t + d < 0x8000_0000_0000_0000
    modifies f
    ensures here == start == PlaceOf(f) && f.n == old(f.n) > 0
    ensures skipped == Landing(t + d, f.n) && f.At(skipped)
  {
    hide OpenFile.TreeOk, OpenFile.Target, Slot, CursorAt, Unsigned, Signed, TruncatedDiv, TruncatedMod;
    hide OpenFile.At, Offset, OffsetOk, Whence, Landing;
    AtZones(f, t);
    LandingIs(t + d, f.n);
    TargetFrom(f, d);
    var target := f.totalRead + d;
    skipped := f.Lseek(d, 1);
    here := PlaceOf(f);
    TargetFrom(f, target);
    skipped := f.Lseek(target, 0);
    start := PlaceOf(f);
    OffsetOnce(here.fpByte, start.fpByte);
  }

  /** Lseek by d with whence 2 does what lseek to size + d with whence 0 does, from any position. */
  method SeekFromEnd(f: OpenFile, d: Int64) returns (end: Place, start: Place, skipped: int)
    requires f.TreeOk() && 0 <= f.size + d < 0x8000_0000_0000_0000
    modifies f
    ensures end == start == PlaceOf(f) && f.n == old(f.n) > 0
    ensures f.size == old(f.size) && skipped == Landing(f.size + d, f.n) && f.At(skipped)
  {
    hide OpenFile.TreeOk, OpenFile.Target, Slot, CursorAt, Unsigned, Signed, TruncatedDiv, TruncatedMod;
    hide OpenFile.At, Offset, OffsetOk, Whence, Landing;
    FirstZone(f);
    LandingIs(f.size + d, f.n);
    TargetFrom(f, d);
    var target := f.size + d;
    skipped := f.Lseek(d, 2);
    end := PlaceOf(f);
    TargetFrom(f, target);
    skipped := f.Lseek(target, 0);
    start := PlaceOf(f);
    OffsetOnce(end.fpByte, start.fpByte);
  }

  lemma OffsetOnce(a: nat, b: nat)
    requires OffsetOk(a) && OffsetOk(b) && Offset(a) == Offset(b)
    ensures a == b
  {
  }

  lemma LandingIs(target: nat, n: nat)
    requires n > 0
    ensures Landing(target, n)
            == BLOCK_SIZE * (if target / BLOCK_SIZE < n then target / BLOCK_SIZE else n - 1) + target % BLOCK_SIZE
  {
  }

  lemma AtZones(f: OpenFile, t: nat)
    requires f.At(t)
    ensures f.TreeOk() && f.n > 0 && f.totalRead == t
  {
  }

  lemma TargetFrom(f: OpenFile, d: Int64)
    ensures 0 <= f.totalRead + d < 0x8000_0000_0000_0000 ==> f.Target(d, 1) == f.totalRead + d
    ensures 0 <= f.size + d < 0x8000_0000_0000_0000 ==> f.Target(d, 2) == f.size + d
    ensures forall e: Int64 :: f.Target(e, 0) == e
    ensures Whence(0) && Whence(1) && Whence(2)
  {
  }

  /**
    What goes wrong where KeepsPlace fails: after a write that exactly fills a zone which is
    not the last one, the next write lands a whole zone too far.
   */
  method WriteAfterFill(f: OpenFile, a: seq<Byte>, b: seq<Byte>, ghost p: nat)
    returns (r: Outcome<int>, ghost mid: Snapshot)
    requires f.InZone(p) && f.fpByte < BLOCK_SIZE && |a| == BLOCK_SIZE - f.fpByte && p + 1 < f.n && b != []
    requires BLOCK_SIZE * (p + 2) + |b| < BLOCK_SIZE * MAX_ZONES
    modifies f
    ensures r.Returns? ==> old(f.Now()).Wrote(mid, BLOCK_SIZE * p + old(f.fpByte), a)
    ensures r.Returns? ==> mid.Wrote(f.Now(), BLOCK_SIZE * (p + 2), b)
  {
    hide OpenFile.TreeOk, Slot, CursorAt, Snapshot.Wrote, NeededUpTo;
    mid := f.Now();
    r := f.Write(a, p);
    if r == Hangs { return; }
    mid := f.Now();
    QuotientRemainder(BLOCK_SIZE * (p + 1), p + 1, BLOCK_SIZE, 0);
    r := f.Write(b, p + 1);
  }

  /** A write that exactly fills a zone that is not the last leaves offset 1024 in the next one. */
  method FillZone(f: OpenFile, a: seq<Byte>, ghost p: nat)
    requires f.Inside(p) && f.At(f.totalRead) && |a| == BLOCK_SIZE - f.fpByte && p + 1 < f.n
    requires f.size < 0x1_0000_0000
    modifies f
    ensures f.InZone(p + 1) && f.fpByte == BLOCK_SIZE && f.n == old(f.n)
    ensures f.totalRead == BLOCK_SIZE * (p + 1) <= f.size < 0x1_0000_0000
    ensures f.size == if old(f.size) < f.totalRead then f.totalRead else old(f.size)
  {
    hide OpenFile.TreeOk, OpenFile.InZone, OpenFile.Stored, OpenFile.Ahead, OpenFile.At, OpenFile.FreeZones;
    hide InPlace, KeepsPlace, Unsigned, Sizes, Snapshot.Stores, Flat, Slot, CursorAt, NeededUpTo;
    f.InsideFacts(p);
    f.AtFacts(f.totalRead, p);
    SizesPlain(f.size, f.totalRead, |a|, BLOCK_SIZE - f.fpByte);
    NoneNeeded(f.n, Reached(p, f.fpByte, |a|) + 1);
    PlainTotal(BLOCK_SIZE * (p + 1));
    var w := f.Write(a, p);
  }

  /**
    And the next read delivers bytes from a whole zone too far: total_read says zone p + 1, the
    bytes are those from zone p + 2 on.
   */
  method ReadAfterFill(f: OpenFile, a: seq<Byte>, count: UInt64, ghost p: nat) returns (r: Outcome<seq<Byte>>)
    requires f.Inside(p) && f.At(f.totalRead) && |a| == BLOCK_SIZE - f.fpByte && p + 1 < f.n
    requires f.size < 0x1_0000_0000 && count + BLOCK_SIZE * (p + 1) < UINT64
    modifies f
    ensures f.n <= MAX_ZONES && BLOCK_SIZE * (p + 1) <= f.size
    ensures var c := if count + BLOCK_SIZE * (p + 1) > f.size then f.size - BLOCK_SIZE * (p + 1) else count;
            && (r == Hangs <==> c > 0 && BLOCK_SIZE * (p + 2) + c >= BLOCK_SIZE * f.n)
            && (r.Returns? ==> && f.totalRead == BLOCK_SIZE * (p + 1) + c && BLOCK_SIZE * (p + 2) + c <= |f.Stored()|
                               && r.value == f.Stored()[BLOCK_SIZE * (p + 2)..BLOCK_SIZE * (p + 2) + c])
  {
    hide OpenFile.TreeOk, OpenFile.InZone, OpenFile.Stored, OpenFile.Ahead, OpenFile.At, OpenFile.ReadLimit;
    hide Unsigned, Offset;
    FillZone(f, a, p);
    f.InZoneFacts(p + 1);
    AheadAtEnd(f, p + 1);
    f.LimitIs(count);
    LimitCases(count, BLOCK_SIZE * (p + 1), f.size);
    ghost var all := f.Stored();
    var overrun;
    ghost var q;
    r, overrun, q := f.Read(count, p + 1);
    if r.Returns? {
      PlainTotal(BLOCK_SIZE * (p + 1) + |r.value|);
      Delivered(all, BLOCK_SIZE * (p + 2), r.value, f.Ahead(q));
    }
  }

  /** At offset 1024 of a zone that is not the last, what is ahead starts a whole zone further on. */
  lemma AheadAtEnd(f: OpenFile, p: nat)
    requires f.InZone(p) && f.fpByte == BLOCK_SIZE && p + 1 <= f.n <= MAX_ZONES
    ensures OffsetOk(f.fpByte) && Offset(f.fpByte) == BLOCK_SIZE && BLOCK_SIZE * (p + 1) <= |f.Stored()|
    ensures f.Ahead(p) == f.Stored()[BLOCK_SIZE * (p + 1)..]
  {
    hide OpenFile.InZone, OpenFile.Stored;
    f.InZoneFacts(p);
    f.StoredLength();
    FetchSplit(f.disk, f.filePointer, 0, 0);
  }

  /** Rewinding a file of one full zone and overwriting that zone leaves the in-block offset at 1024. */
  method Overwrite(f: OpenFile, b: seq<Byte>)
    requires f.Appendable() && f.size == BLOCK_SIZE && |b| == BLOCK_SIZE
    modifies f
    ensures f.InZone(1) && f.size == f.totalRead == BLOCK_SIZE && f.n == 2 && f.Text() == b
    ensures f.fpByte == BLOCK_SIZE && !f.At(BLOCK_SIZE)
  {
    hide OpenFile.TreeOk, Slot, CursorAt, Snapshot.Wrote, Snapshot.Bytes, NeededUpTo;
    hide Unsigned, TruncatedDiv, TruncatedMod, KeepsPlace;
    var at := f.Lseek(0, SEEK_SET);
    NoneNeeded(2, 2);
    ghost var before := f.Now();
    SizesPlain(f.size, 0, |b|, BLOCK_SIZE);
    PlainTotal(|b|);
    var r := f.Write(b, 0);
    f.StoredLength();
    WroteBytes(before, f.Now(), 0, b);
    assert f.Stored()[..BLOCK_SIZE] == b;
  }

  /**
    A write that loses its place: on any disk with two free zones, a new file of 1024 bytes is
    rewound and overwritten in full.  The next write would start in a third zone, although the
    file has only 1024 bytes.
   */
  method LosePlace(disk: Disk, zmap: Bitmap, firstDataZone: U32, numZones: nat, a: seq<Byte>, b: seq<Byte>)
    returns (f: OpenFile)
    requires 0 < numZones <= 8 * |zmap| && firstDataZone + numZones < 0x1_0000_0000 && Taken(zmap, 0)
    requires FreeCount(UsedZones(zmap, firstDataZone), firstDataZone, numZones) >= 2
    requires |a| == BLOCK_SIZE && |b| == BLOCK_SIZE
    ensures fresh(f) && f.InZone(1) && f.size == f.totalRead == BLOCK_SIZE && f.n == 2 && f.Text() == b
    ensures f.fpByte == BLOCK_SIZE && !f.At(BLOCK_SIZE)
  {
    hide OpenFile.FsOk, OpenFile.InZone, OpenFile.TreeOk, OpenFile.At, OpenFile.Text, NeededUpTo, FreeCount;
    f := new OpenFile(disk, zmap, firstDataZone, numZones);
    var created := f.OpenNew();
    NeededForOne(1);
    var r := f.Append(a);
    Overwrite(f, b);
  }

  /** No two neighbouring zones of the disk are free. */
  predicate Scattered(zmap: Bitmap, numZones: nat)
    requires numZones <= 8 * |zmap|
  {
    forall i: nat, j: nat :: j == i + 1 && j < numZones && !Taken(zmap, i) ==> Taken(zmap, j)
  }

  lemma UsedIsTaken(zmap: Bitmap, first: nat, z: nat)
    ensures first <= z < first + 8 * |zmap| ==> (z in UsedZones(zmap, first) <==> Taken(zmap, z - first))
  {
    UsedZonesMarks(zmap, first);
    if first <= z < first + 8 * |zmap| {
      assert Taken(zmap, z - first) <==> first + (z - first) in UsedZones(zmap, first);
    }
  }

  lemma NextTaken(zmap: Bitmap, first: nat, numZones: nat, z: nat)
    requires numZones <= 8 * |zmap| && Scattered(zmap, numZones)
    requires first <= z < first + numZones && z !in UsedZones(zmap, first)
    ensures z + 1 < first + numZones ==> Taken(zmap, z + 1 - first)
  {
    UsedIsTaken(zmap, first, z);
  }

  /** Every other zone is foreign to a file of one zone, if it is taken in the old bitmap or no data zone. */
  lemma NewFileForeign(f: OpenFile, zmap: Bitmap, y: nat)
    requires f.TreeOk() && f.n == 1 && f.numZones <= 8 * |zmap| && y != f.zones[0]
    requires f.used == UsedZones(zmap, f.firstDataZone) + {f.zones[0] as nat}
    requires f.InPool(y) ==> Taken(zmap, y - f.firstDataZone)
    ensures f.Now().Foreign(y)
  {
  }

  /** What is foreign to a file stays so when it is written, and the file keeps its first zone. */
  lemma StillForeign(g: Snapshot, h: Snapshot, at: nat, data: seq<Byte>, z: nat)
    requires g.Wrote(h, at, data) && g.Foreign(z) && 1 <= g.n
    ensures h.Foreign(z) && Fetch(h.disk, z) == Fetch(g.disk, z) && h.zones[0] == g.zones[0]
    ensures forall i :: 0 <= i < h.n ==> Flat(h.view, h.zones, h.n)[i] != z
  {
    assert Flat(g.view, g.zones, g.n)[0] == Flat(h.view, h.zones, h.n)[0];
    forall i | 0 <= i < h.n
      ensures Flat(h.view, h.zones, h.n)[i] != z
    {
      DataIsHeld(h.view, h.zones, h.n, i);
    }
  }

  /** Rewinding a file of one full zone and writing 1025 bytes, when its second zone does not follow the first. */
  method OverwriteMore(f: OpenFile, b: seq<Byte>)
    requires f.Appendable() && f.size == BLOCK_SIZE && |b| == BLOCK_SIZE + 1
    requires Slot(f.view, f.zones, 1) as int != f.zones[0] as int + 1
    modifies f
    ensures f.InZone(1) && f.size == f.totalRead == |b| && f.n == 2 && f.Text() == b
    ensures f.fpByte == 1 && f.filePointer != f.fpBlock * BLOCK_SIZE + f.fpByte && !f.At(|b|)
  {
    hide OpenFile.TreeOk, Slot, CursorAt, Snapshot.Wrote, Snapshot.Bytes;
    hide NeededUpTo, Unsigned, TruncatedDiv, TruncatedMod;
    var at := f.Lseek(0, SEEK_SET);
    NoneNeeded(2, 2);
    ghost var before := f.Now();
    SizesPlain(f.size, 0, |b|, BLOCK_SIZE);
    PlainTotal(|b|);
    FirstZone(f);
    var r := f.Write(b, 0);
    f.StoredLength();
    WroteBytes(before, f.Now(), 0, b);
    assert f.Stored()[..|b|] == b;
  }

  /**
    The other way to lose the place: on any such disk with two free zones, a new file of 1024
    bytes is rewound and 1025 bytes are written.  The last one is stored in the second zone,
    but the device address goes on behind the first.
   */
  method LosePlaceApart(disk: Disk, zmap: Bitmap, firstDataZone: U32, numZones: nat, a: seq<Byte>, b: seq<Byte>)
    returns (f: OpenFile)
    requires 0 < numZones <= 8 * |zmap| && firstDataZone + numZones < 0x1_0000_0000 && Taken(zmap, 0)
    requires FreeCount(UsedZones(zmap, firstDataZone), firstDataZone, numZones) >= 2 && Scattered(zmap, numZones)
    requires |a| == BLOCK_SIZE && |b| == BLOCK_SIZE + 1
    ensures fresh(f) && f.InZone(1) && f.size == f.totalRead == BLOCK_SIZE + 1 && f.n == 2 && f.Text() == b
    ensures f.fpByte == 1 && f.filePointer != f.fpBlock * BLOCK_SIZE + f.fpByte && !f.At(|b|)
  {
    hide OpenFile.FsOk, OpenFile.InZone, OpenFile.TreeOk, OpenFile.At, OpenFile.Text, NeededUpTo, FreeCount;
    hide Snapshot.Wrote;
    f := new OpenFile(disk, zmap, firstDataZone, numZones);
    var created := f.OpenNew();
    NeededForOne(1);
    ghost var g, next: int := f.Now(), f.zones[0] as int + 1;
    NextTaken(zmap, firstDataZone, numZones, f.zones[0]);
    NewFileForeign(f, zmap, next);
    var r := f.Append(a);
    StillForeign(g, f.Now(), 0, a, next);
    FlatAt(f.view, f.zones, f.n, 1);
    OverwriteMore(f, b);
  }

  /** A file whose position lseek puts behind its end, or before its start (src/minix3.c:1657-1660, 2040-2046). */
  method SeekOutside(f: OpenFile, behind: Int64, before: Int64, count: UInt64)
    returns (r: Outcome<seq<Byte>>, skipped: int)
    requires f.Appendable() && f.size < behind < BLOCK_SIZE * f.n && -BLOCK_SIZE < before < 0
    modifies f
    ensures skipped == before && f.InZone(0) && f.fpByte >= BLOCK_SIZE && !f.At(f.totalRead)
    ensures r == Hangs
  {
    hide OpenFile.TreeOk, Slot, CursorAt, Unsigned, Signed, TruncatedDiv, TruncatedMod;
    skipped := f.Lseek(behind, SEEK_SET);
    var overrun;
    ghost var q;
    r, overrun, q := f.Read(count, behind / BLOCK_SIZE);
    skipped := f.Lseek(before, SEEK_SET);
    BeforeStart(before);
  }

  lemma BeforeStart(target: int)
    requires -BLOCK_SIZE < target < 0
    ensures Unsigned(TruncatedDiv(target)) == 0 && TruncatedMod(target) == target && Unsigned(target) >= BLOCK_SIZE
    ensures target % BLOCK_SIZE != 0
  {
  }

  /**
    lseek to -1 and a write of one byte, on any file whose first zone has a zone before it on
    the disk that is not the file's: the byte goes to the end of that zone, none of the file
    changes, and write reports one byte written.
   */
  method WriteBeforeStart(f: OpenFile, b: Byte, ghost z: nat) returns (r: Outcome<int>)
    requires f.TreeOk() && z + 1 == f.zones[0] as int && f.Now().Foreign(z)
    modifies f
    ensures r == Returns(1) && f.n == old(f.n) <= MAX_ZONES && f.Stored() == old(f.Stored())
    ensures forall y: nat :: y != z ==> Fetch(f.disk, y) == old(Fetch(f.disk, y))
    ensures Fetch(f.disk, z) == Patch(old(Fetch(f.disk, z)), BLOCK_SIZE - 1, [b])
  {
    hide OpenFile.InZone, OpenFile.TreeOk, Slot, CursorAt, Unsigned, Signed, TruncatedDiv, TruncatedMod, Tree, Synced;
    hide WriteBytes, NeededUpTo, Sizes, KeepsPlace, Offset, OffsetOk, FinalByte, Contents, PointerZone, Patch;
    ghost var g := f.Now();
    FirstZone(f);
    BeforeStart(-1);
    var at := f.Lseek(-1, SEEK_SET);
    f.InZoneFacts(0);
    ForeignSpares(g, z);
    NoneNeeded(f.n, 1);
    r := f.Write([b], 0);
    PutKeepsTree(g, 0, -1, [b]);
    WriteInZone(g.disk, z, BLOCK_SIZE - 1, [b]);
    forall i | 0 <= i < g.n
      ensures Fetch(f.disk, Flat(g.view, g.zones, g.n)[i]) == Fetch(g.disk, Flat(g.view, g.zones, g.n)[i])
    {
      DataIsHeld(g.view, g.zones, g.n, i);
    }
    SameZones(g.disk, f.disk, Flat(g.view, g.zones, g.n));
  }

  lemma FirstZone(f: OpenFile)
    requires f.TreeOk()
    ensures 1 <= f.n <= MAX_ZONES && Synced(f.disk, f.view) && Tree(f.view, f.zones, f.n)
    ensures Slot(f.view, f.zones, 0) == f.zones[0]
  {
  }

  lemma ForeignSpares(g: Snapshot, z: nat)
    requires g.Foreign(z)
    ensures g.Spares(z + 1, -1)
  {
    if PointerZone(g.view, g.zones, g.n, z) {
      PointerIsHeld(g.view, g.zones, g.n, z);
    }
  }

  /**
    lseek to -2 and a write of one byte: total_read is then the 64-bit -1, which is more than
    any size, and the low 32 bits of it become the size of the file.
   */
  method SizeRunsAway(f: OpenFile, b: Byte) returns (r: Outcome<int>)
    requires f.TreeOk() && f.size < 0x1_0000_0000
    modifies f
    ensures r == Returns(1) && f.n == old(f.n)
    ensures f.totalRead == 0xFFFF_FFFF_FFFF_FFFF && f.size == 4294967295
  {
    hide OpenFile.InZone, OpenFile.TreeOk, Slot, CursorAt, Signed, TruncatedDiv, TruncatedMod, Tree, Synced;
    hide WriteBytes, NeededUpTo, KeepsPlace, Offset, OffsetOk, FinalByte, Contents, PointerZone, Patch, Snapshot.Stores;
    FirstZone(f);
    BeforeStart(-2);
    var at := f.Lseek(-2, SEEK_SET);
    f.InZoneFacts(0);
    NoneNeeded(f.n, 1);
    SizesFirst(f.size, f.totalRead, 1, BLOCK_SIZE + 2);
    r := f.Write([b], 0);
  }

  /**
    The same from the start: create a file, append to it, lseek to -1, write one byte.  The
    byte is then in a zone that belonged to something else before the file was created.
   */
  method WriteBeforeNew(disk: Disk, zmap: Bitmap, firstDataZone: U32, numZones: nat, a: seq<Byte>, b: Byte)
    returns (f: OpenFile, r: Outcome<int>, ghost z: nat)
    requires 0 < numZones <= 8 * |zmap| && firstDataZone + numZones < 0x1_0000_0000 && Taken(zmap, 0)
    requires |a| < BLOCK_SIZE * MAX_ZONES
    requires FreeCount(UsedZones(zmap, firstDataZone), firstDataZone, numZones)
             >= 1 + NeededUpTo(1, |a| / BLOCK_SIZE + 1)
    ensures fresh(f) && r == Returns(1) && f.n <= MAX_ZONES && |a| <= |f.Stored()| && f.Stored()[..|a|] == a
    ensures firstDataZone <= z < firstDataZone + numZones && Taken(zmap, z - firstDataZone)
    ensures Fetch(f.disk, z) == Patch(Fetch(disk, z), BLOCK_SIZE - 1, [b])
  {
    hide OpenFile.FsOk, OpenFile.InZone, OpenFile.At, OpenFile.TreeOk, NeededUpTo, FreeCount;
    hide Patch, Fetch, Snapshot.Wrote;
    f := new OpenFile(disk, zmap, firstDataZone, numZones);
    var created := f.OpenNew();
    z := f.zones[0] as int - 1;
    ghost var g := f.Now();
    UsedIsTaken(zmap, firstDataZone, z);
    NewFileForeign(f, zmap, z);
    f.StoredLength();
    assert f.Text() == [];
    var w := f.Append(a);
    StillForeign(g, f.Now(), 0, a, z);
    f.StoredLength();
    assert f.Stored()[..|a|] == a;
    r := WriteBeforeStart(f, b, z);
  }

  /** A file of 10 bytes: after lseek to 500 even a read of 0 bytes spins, and lseek to -1 succeeds. */
  method TenBytes(disk: Disk, zmap: Bitmap, firstDataZone: U32, numZones: nat, a: seq<Byte>)
    returns (r: Outcome<seq<Byte>>, skipped: int)
    requires 0 < numZones <= 8 * |zmap| && firstDataZone + numZones < 0x1_0000_0000 && Taken(zmap, 0)
    requires FreeCount(UsedZones(zmap, firstDataZone), firstDataZone, numZones) >= 1 && |a| == 10
    ensures r == Hangs && skipped == -1
  {
    hide OpenFile.FsOk, OpenFile.InZone, OpenFile.TreeOk, OpenFile.At, OpenFile.Text, NeededUpTo, FreeCount;
    var f := new OpenFile(disk, zmap, firstDataZone, numZones);
    var created := f.OpenNew();
    NoneNeeded(1, 1);
    var written := f.Append(a);
    r, skipped := SeekOutside(f, 500, -1, 0);
  }

  /**
    The writes that lose the place, from inside a zone that is not the last: those that fill it
    exactly, and those that end inside the next one, unless that is the next one on the disk.
   */
  lemma PlaceLost(flat: seq<U32>, p: nat, off: nat, more: nat)
    requires p + 1 < |flat| && off < BLOCK_SIZE && more < BLOCK_SIZE
    ensures KeepsPlace(flat, p, off, BLOCK_SIZE - off + more) <==> more > 0 && flat[p + 1] as int == flat[p] as int + 1
  {
  }

  /** A file with a hole for its single-indirect zone, whose double-indirect zone is never reached. */
  lemma MissedZone()
    ensures var view: PointerView := map[5 := OnePointer(6), 6 := OnePointer(9)];
            var zones: Zones := [1, 0, 0, 0, 0, 0, 0, 0, 5, 0];
            && Slot(view, zones, FIRST_DOUBLE) == 9
            && Occupied(view, zones, 1, Horizon(zones, 0)) != Occupied(view, zones, 1, MAX_ZONES)
  {
    var view: PointerView := map[5 := OnePointer(6), 6 := OnePointer(9)];
    var zones: Zones := [1, 0, 0, 0, 0, 0, 0, 0, 5, 0];
    assert LeafZone(view, zones, 0) == 6;
    assert Slot(view, zones, FIRST_DOUBLE) == 9;
    hide Slot;
    EnumeratesAll(view, zones, 0);
  }
}
