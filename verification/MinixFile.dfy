/**
  An open file of the Minix 3 file system: the file-system state its operations touch
  (block store and zone bitmap), the cached inode, and the position fields of its
  descriptor entry (src/include/minix3.h:84-100).
 */
module MinixFile {
  import opened Arithmetic
  import opened BlockStore
  import opened ZoneTree
  import opened ZoneMap
  import opened ZoneGrowth
  import opened FileBytes

  ghost function PosOf(c: Cursor): nat {
    if c.z0 < ZONE_INDIR then c.z0
    else if c.z0 == ZONE_INDIR then ZONE_INDIR + c.z1
    else FIRST_DOUBLE + NUM_POINTERS * c.z1 + c.z2
  }

  /** The cursor names a slot of the tree and is in the one form the code uses for that slot. */
  ghost predicate OnGrid(c: Cursor) {
    PosOf(c) < MAX_ZONES && c == CursorAt(PosOf(c))
  }

  lemma CursorRoundTrip(p: nat)
    requires p < MAX_ZONES
    ensures OnGrid(CursorAt(p)) && PosOf(CursorAt(p)) == p
  {
  }

  lemma CursorStep(p: nat)
    requires FIRST_DOUBLE < p < MAX_ZONES
    ensures var c, j, k := CursorAt(p - 1), (p - FIRST_DOUBLE) / NUM_POINTERS, (p - FIRST_DOUBLE) % NUM_POINTERS;
            && CursorAt(p) == Cursor(ZONE_DINDIR, j, k, NONE)
            && if k == 0 then c == Cursor(ZONE_DINDIR, j - 1, NUM_POINTERS - 1, NONE)
               else c == Cursor(ZONE_DINDIR, j, k - 1, NONE)
  {
  }

  lemma DoubleZone(view: PointerView, zones: Zones, n: nat)
    requires Tree(view, zones, n)
    ensures zones[ZONE_DINDIR] == 0 <==> n <= FIRST_DOUBLE
    ensures zones[ZONE_TINDIR] == 0
  {
    assert NodeZone(view, zones, Double) == zones[ZONE_DINDIR];
  }

  lemma DataIsOwned(view: PointerView, zones: Zones, n: nat, used: set<nat>, p: nat)
    requires Tree(view, zones, n) && Owned(view, zones, n, used) && p < n
    ensures Slot(view, zones, p) in used
  {
    assert NodeZone(view, zones, Data(p)) == Slot(view, zones, p) && Data(p).InRange() && Data(p).Live(n);
  }

  lemma DataIsHeld(view: PointerView, zones: Zones, n: nat, p: nat)
    requires p < n <= MAX_ZONES
    ensures Holds(view, zones, n, Slot(view, zones, p))
  {
    assert NodeZone(view, zones, Data(p)) == Slot(view, zones, p) && Data(p).InRange() && Data(p).Live(n);
  }

  lemma SameNodes(view: PointerView, view': PointerView, zones: Zones, n: nat, used: set<nat>)
    requires Owned(view, zones, n, used)
    requires forall x: Node :: x.InRange() ==> NodeZone(view', zones, x) == NodeZone(view, zones, x)
    ensures Owned(view', zones, n, used)
  {
  }

  /** In a dense file exactly the first n slots are occupied, and a walk from any of them sees them all. */
  lemma DenseSlots(view: PointerView, zones: Zones, n: nat)
    requires Tree(view, zones, n)
    ensures forall p :: 0 <= p < MAX_ZONES ==> (Slot(view, zones, p) != 0 <==> p < n)
    ensures forall p: nat :: p < n ==> n <= Horizon(zones, p)
    ensures zones[ZONE_TINDIR] == 0
  {
    forall p | 0 <= p < MAX_ZONES
      ensures Slot(view, zones, p) != 0 <==> p < n
    {
      assert NodeZone(view, zones, Data(p)) == Slot(view, zones, p) && Data(p).InRange();
    }
    assert NodeZone(view, zones, Single) == zones[ZONE_INDIR];
  }

  /** A file of one zone. */
  lemma OneZone(view: PointerView, zones: Zones, used: set<nat>)
    requires zones[0] > 0 && zones[0] in used && forall i :: 1 <= i < 10 ==> zones[i] == 0
    ensures Tree(view, zones, 1) && Owned(view, zones, 1, used)
  {
  }

  /** The three forms of a cursor on a slot. */
  lemma GridForms(c: Cursor)
    requires OnGrid(c)
    ensures c.z3 == NONE
    ensures PosOf(c) < ZONE_INDIR ==> c.z0 == PosOf(c) && c.z1 == NONE && c.z2 == NONE
    ensures ZONE_INDIR <= PosOf(c) < FIRST_DOUBLE ==>
              c.z0 == ZONE_INDIR && c.z1 == PosOf(c) - ZONE_INDIR && c.z2 == NONE
    ensures FIRST_DOUBLE <= PosOf(c) ==> c.z0 == ZONE_DINDIR && c.z1 < NUM_POINTERS && c.z2 < NUM_POINTERS
  {
  }

  lemma DirectOnGrid(c: Cursor)
    requires c.z0 < ZONE_INDIR && c == Cursor(c.z0, NONE, NONE, NONE)
    ensures OnGrid(c)
  {
  }

  lemma SingleOnGrid(c: Cursor)
    requires c.z1 < NUM_POINTERS && c == Cursor(ZONE_INDIR, c.z1, NONE, NONE)
    ensures OnGrid(c)
  {
  }

  lemma DoubleOnGrid(c: Cursor)
    requires c.z1 < NUM_POINTERS && c.z2 < NUM_POINTERS && c == Cursor(ZONE_DINDIR, c.z1, c.z2, NONE)
    ensures OnGrid(c)
  {
  }

  lemma NoIndirectZones(view: PointerView, zones: Zones)
    ensures zones[ZONE_INDIR] == 0 ==> Holes(view, zones, ZONE_INDIR, FIRST_DOUBLE)
    ensures zones[ZONE_DINDIR] == 0 ==> Holes(view, zones, FIRST_DOUBLE, MAX_ZONES)
  {
  }

  lemma OccupiedLeaf(view: PointerView, zones: Zones, j: nat, k: nat)
    requires j < NUM_POINTERS && k < NUM_POINTERS
    requires Slot(view, zones, FIRST_DOUBLE + NUM_POINTERS * j + k) != 0
    ensures LeafZone(view, zones, j) != 0
  {
  }

  /**
    Where a walk that starts at p stops looking.  Without a single-indirect zone the code
    never goes on to the double-indirect one.
   */
  ghost function Horizon(zones: Zones, p: nat): nat {
    if p < FIRST_DOUBLE && zones[ZONE_INDIR] == 0 then FIRST_DOUBLE else MAX_ZONES
  }

  ghost predicate Holes(view: PointerView, zones: Zones, lo: nat, hi: nat)
    requires hi <= MAX_ZONES
  {
    forall r :: lo <= r < hi ==> Slot(view, zones, r) == 0
  }

  lemma SlotInLeaf(view: PointerView, zones: Zones, j: nat, k: nat)
    requires j < NUM_POINTERS && k < NUM_POINTERS
    ensures var leaf := LeafZone(view, zones, j);
            Slot(view, zones, FIRST_DOUBLE + NUM_POINTERS * j + k) == if leaf == 0 then 0 else Row(view, leaf)[k]
  {
  }

  lemma LeafHoles(view: PointerView, zones: Zones, j: nat, lo: nat, hi: nat)
    requires j < NUM_POINTERS && lo <= hi <= NUM_POINTERS
    requires forall k :: lo <= k < hi ==> Row(view, LeafZone(view, zones, j))[k] == 0
    ensures Holes(view, zones, FIRST_DOUBLE + NUM_POINTERS * j + lo, FIRST_DOUBLE + NUM_POINTERS * j + hi)
  {
    forall r | FIRST_DOUBLE + NUM_POINTERS * j + lo <= r < FIRST_DOUBLE + NUM_POINTERS * j + hi
      ensures Slot(view, zones, r) == 0
    {
      SlotInLeaf(view, zones, j, r - FIRST_DOUBLE - NUM_POINTERS * j);
    }
  }

  lemma NoLeafHoles(view: PointerView, zones: Zones, j: nat)
    requires j < NUM_POINTERS && LeafZone(view, zones, j) == 0
    ensures Holes(view, zones, FIRST_DOUBLE + NUM_POINTERS * j, FIRST_DOUBLE + NUM_POINTERS * (j + 1))
  {
  }

  const SEEK_SET := 0
  const SEEK_CUR := 1
  const SEEK_END := 2

  /** What a call does: the kernel's `while(1)` on an exhausted disk is Hangs. */
  datatype Outcome<+T> = Hangs | Returns(value: T)

  /** The occupied slots among positions lo..hi, in order. */
  ghost function Occupied(view: PointerView, zones: Zones, lo: nat, hi: nat): seq<U32>
    requires hi <= MAX_ZONES
    decreases hi
  {
    if hi <= lo then []
    else
      var rest := Occupied(view, zones, lo, hi - 1);
      if Slot(view, zones, hi - 1) == 0 then rest else rest + [Slot(view, zones, hi - 1)]
  }

  lemma {:induction false} OccupiedOverHoles(view: PointerView, zones: Zones, lo: nat, mid: nat, hi: nat)
    requires mid <= hi <= MAX_ZONES && Holes(view, zones, mid, hi) && lo <= mid
    ensures Occupied(view, zones, lo, hi) == Occupied(view, zones, lo, mid)
  {
    if mid < hi {
      OccupiedOverHoles(view, zones, lo, mid, hi - 1);
    }
  }

  /** The part of a file's state that writing to it changes, and the range of zones it may grow into. */
  datatype Snapshot = Snapshot(disk: Disk, view: PointerView, zones: Zones, n: nat, used: set<nat>, lo: nat, hi: nat) {

    /** Zone z belongs to something else: another file, or the disk outside the data zones. */
    ghost predicate Foreign(z: nat) {
      !Holds(view, zones, n, z) && (lo <= z < hi ==> z in used)
    }

    ghost function Bytes(): seq<Byte>
      requires n <= MAX_ZONES
    {
      Contents(disk, Flat(view, zones, n))
    }

    /** The state after a device write, with the pointers read from what is on the disk then. */
    ghost function Put(addr: nat, data: seq<Byte>): Snapshot {
      var after := WriteBytes(disk, addr, data);
      this.(disk := after, view := View(after))
    }

    /** A write at offset off of zone z, before the zone if off is negative, meets no pointer zone of the file. */
    ghost predicate Spares(z: nat, off: int) {
      off >= 0 || z == 0 || !PointerZone(view, zones, n, z - 1)
    }

    /**
      From this state to h, data was written at byte `at` of the file.  The file may have
      grown behind its end, and nothing that belongs to something else was touched.
     */
    ghost predicate Wrote(h: Snapshot, at: nat, data: seq<Byte>) {
      && n <= h.n <= MAX_ZONES && lo == h.lo && hi == h.hi
      && Flat(view, zones, n) <= Flat(h.view, h.zones, h.n)
      && Overwrites(Bytes(), h.Bytes(), at, data)
      && forall z: nat :: Foreign(z) ==> h.Foreign(z) && Fetch(h.disk, z) == Fetch(disk, z)
    }

    /**
      From this state to h, write stored data from offset off of data zone p on, which is zone
      z.  If the bytes lie in place, that is a write to the file.  In any case the bytes up to
      the end of the zone went to the device address of z plus off and the rest to the file
      from zone p + 1 on.
     */
    ghost predicate Stores(h: Snapshot, p: nat, off: int, z: U32, data: seq<Byte>)
      requires p < n <= MAX_ZONES && -BLOCK_SIZE < off <= BLOCK_SIZE && z > 0
    {
      var at, addr, left := BLOCK_SIZE * p + off, z * BLOCK_SIZE + off, BLOCK_SIZE - off;
      && (InPlace(Flat(view, zones, n), p, off) ==> at >= 0 && Wrote(h, at, data))
      && (|data| < left ==> h == Put(addr, data))
      && (0 < left <= |data| ==> Put(addr, data[..left]).Wrote(h, BLOCK_SIZE * (p + 1), data[left..]))
    }
  }

  lemma WroteCompose(g: Snapshot, h: Snapshot, i: Snapshot, at: nat, d1: seq<Byte>, d2: seq<Byte>)
    requires g.Wrote(h, at, d1) && h.Wrote(i, at + |d1|, d2)
    ensures g.Wrote(i, at, d1 + d2)
  {
    hide Snapshot.Foreign, Contents, Flat;
    OverwritesCompose(g.Bytes(), h.Bytes(), i.Bytes(), at, d1, d2);
  }

  lemma StoresMore(g: Snapshot, h: Snapshot, i: Snapshot, p: nat, off: int, z: U32, d1: seq<Byte>, d2: seq<Byte>)
    requires p < g.n <= MAX_ZONES && -BLOCK_SIZE < off <= BLOCK_SIZE && z > 0 && off + |d1| == BLOCK_SIZE
    requires g.Stores(h, p, off, z, d1) && h.Wrote(i, BLOCK_SIZE * (p + 1), d2)
    ensures g.Stores(i, p, off, z, d1 + d2)
  {
    hide Snapshot.Wrote, Snapshot.Put, InPlace, Flat;
    if InPlace(Flat(g.view, g.zones, g.n), p, off) {
      WroteCompose(g, h, i, BLOCK_SIZE * p + off, d1, d2);
    }
    if off < BLOCK_SIZE {
      assert d1[..BLOCK_SIZE - off] == d1 && d1[BLOCK_SIZE - off..] == [] && [] + d2 == d2;
      assert (d1 + d2)[..BLOCK_SIZE - off] == d1 && (d1 + d2)[BLOCK_SIZE - off..] == d2;
      WroteCompose(g.Put(z * BLOCK_SIZE + off, d1), h, i, BLOCK_SIZE * (p + 1), [], d2);
    }
  }

  /** The part of a write that ends before the zone does, or at its end with a step to the next. */
  lemma StoresHead(g: Snapshot, mid: Snapshot, h: Snapshot, p: nat, off: int, z: U32, data: seq<Byte>)
    requires p < g.n <= MAX_ZONES && -BLOCK_SIZE < off < BLOCK_SIZE && z > 0 && off + |data| <= BLOCK_SIZE
    requires mid == g.Put(z * BLOCK_SIZE + off, data)
    requires InPlace(Flat(g.view, g.zones, g.n), p, off) ==>
               BLOCK_SIZE * p + off >= 0 && g.Wrote(mid, BLOCK_SIZE * p + off, data)
    requires if off + |data| < BLOCK_SIZE then h == mid else mid.Wrote(h, BLOCK_SIZE * (p + 1), [])
    ensures g.Stores(h, p, off, z, data)
  {
    hide Snapshot.Wrote, Snapshot.Put, InPlace, Flat;
    if off + |data| == BLOCK_SIZE {
      assert data + [] == data && data[..BLOCK_SIZE - off] == data && data[BLOCK_SIZE - off..] == [];
      if InPlace(Flat(g.view, g.zones, g.n), p, off) {
        WroteCompose(g, mid, h, BLOCK_SIZE * p + off, data, []);
      }
    }
  }

  lemma StoresNone(g: Snapshot, h: Snapshot, p: nat, z: U32)
    requires p < g.n <= MAX_ZONES && z > 0 && g.Wrote(h, BLOCK_SIZE * (p + 1), [])
    ensures g.Stores(h, p, BLOCK_SIZE, z, [])
  {
  }

  lemma WroteBytes(g: Snapshot, h: Snapshot, at: nat, data: seq<Byte>)
    requires g.Wrote(h, at, data)
    ensures g.n <= h.n <= MAX_ZONES && Overwrites(g.Bytes(), h.Bytes(), at, data)
  {
  }

  lemma PointerIsHeld(view: PointerView, zones: Zones, n: nat, z: nat)
    requires PointerZone(view, zones, n, z)
    ensures Holds(view, zones, n, z)
  {
  }

  /** A device write at offset off of data zone p that meets no pointer zone keeps the tree. */
  lemma PutKeepsTree(g: Snapshot, p: nat, off: int, data: seq<Byte>)
    requires Synced(g.disk, g.view) && Tree(g.view, g.zones, g.n) && p < g.n
    requires -BLOCK_SIZE < off && off + |data| <= BLOCK_SIZE && g.Spares(Slot(g.view, g.zones, p), off)
    ensures Slot(g.view, g.zones, p) > 0
    ensures var h := g.Put(Slot(g.view, g.zones, p) * BLOCK_SIZE + off, data);
            && Synced(h.disk, h.view) && Tree(h.view, h.zones, h.n)
            && Flat(h.view, h.zones, h.n) == Flat(g.view, g.zones, g.n)
            && forall x: Node :: x.InRange() ==> NodeZone(h.view, h.zones, x) == NodeZone(g.view, g.zones, x)
  {
    hide Tree, PointerZone, Slot, Synced, View, WriteBytes, NodeZone, Decode, Fetch;
    DataIsSomewhere(g.view, g.zones, g.n, p);
    var z := Slot(g.view, g.zones, p);
    var h := g.Put(z * BLOCK_SIZE + off, data);
    ViewIsSynced(h.disk);
    DataIsNotPointer(g.view, g.zones, g.n, p);
    forall y: nat | PointerZone(g.view, g.zones, g.n, y)
      ensures Row(h.view, y) == Row(g.view, y)
    {
      assert y != z && (off >= 0 || y != z - 1);
      UntouchedZone(g.disk, z * BLOCK_SIZE + off, data, y);
      SameRow(g.disk, g.view, h.disk, h.view, y);
    }
    PointersKeepTree(g.view, h.view, g.zones, g.n);
  }

  lemma SameRow(disk: Disk, view: PointerView, disk': Disk, view': PointerView, y: nat)
    requires Synced(disk, view) && Synced(disk', view') && Fetch(disk', y) == Fetch(disk, y)
    ensures Row(view', y) == Row(view, y)
  {
    assert FetchPointers(disk', y) == FetchPointers(disk, y);
  }

  lemma DataIsSomewhere(view: PointerView, zones: Zones, n: nat, p: nat)
    requires Tree(view, zones, n) && p < n
    ensures p < n <= MAX_ZONES && Slot(view, zones, p) > 0
  {
    assert NodeZone(view, zones, Data(p)) == Slot(view, zones, p) && Data(p).InRange();
  }

  lemma InPlaceSpares(g: Snapshot, p: nat, off: int)
    requires Tree(g.view, g.zones, g.n) && p < g.n && InPlace(Flat(g.view, g.zones, g.n), p, off)
    ensures g.Spares(Slot(g.view, g.zones, p), off)
  {
    if off < 0 {
      DataIsNotPointer(g.view, g.zones, g.n, p - 1);
    }
  }

  /** If the bytes lie where the file has them, it is a write to the file and touches nothing foreign. */
  lemma PutWrites(g: Snapshot, p: nat, off: int, data: seq<Byte>)
    requires Synced(g.disk, g.view) && Tree(g.view, g.zones, g.n) && p < g.n && data != []
    requires -BLOCK_SIZE < off && off + |data| <= BLOCK_SIZE && InPlace(Flat(g.view, g.zones, g.n), p, off)
    ensures Slot(g.view, g.zones, p) > 0 && BLOCK_SIZE * p + off >= 0
    ensures g.Wrote(g.Put(Slot(g.view, g.zones, p) * BLOCK_SIZE + off, data), BLOCK_SIZE * p + off, data)
  {
    hide Tree, Slot, Synced, View, WriteBytes, NodeZone, Decode, Fetch, Holds, Contents, Overwrites, Lands;
    DataIsSomewhere(g.view, g.zones, g.n, p);
    var z, flat := Slot(g.view, g.zones, p), Flat(g.view, g.zones, g.n);
    InPlaceSpares(g, p, off);
    PutKeepsTree(g, p, off, data);
    var h := g.Put(z * BLOCK_SIZE + off, data);
    FlatDistinct(g.view, g.zones, g.n);
    LandsIff(flat, p, off, |data|);
    LandedWrites(g.disk, flat, z * BLOCK_SIZE + off, BLOCK_SIZE * p + off, data);
    DataIsHeld(g.view, g.zones, g.n, p);
    if off < 0 { DataIsHeld(g.view, g.zones, g.n, p - 1); }
    SameHolds(g.view, h.view, g.zones, g.n);
    forall y: nat | g.Foreign(y)
      ensures h.Foreign(y) && Fetch(h.disk, y) == Fetch(g.disk, y)
    {
      assert y != z && (off >= 0 || y != z - 1);
      UntouchedZone(g.disk, z * BLOCK_SIZE + off, data, y);
    }
  }

  lemma SameHolds(view: PointerView, view': PointerView, zones: Zones, n: nat)
    requires forall x: Node :: x.InRange() ==> NodeZone(view', zones, x) == NodeZone(view, zones, x)
    ensures forall z: nat :: Holds(view', zones, n, z) <==> Holds(view, zones, n, z)
  {
  }

  /**
    Exactly when a write at offset off of zone p puts the bytes into the file and touches
    nothing foreign, whatever they are: if off is not negative, or the zone before it in the
    file is the one before it on the disk.
   */
  lemma LandsWhateverIff(g: Snapshot, p: nat, off: int, len: nat)
    requires Synced(g.disk, g.view) && Tree(g.view, g.zones, g.n) && p < g.n
    requires -BLOCK_SIZE < off && 0 < len <= BLOCK_SIZE - off
    ensures Slot(g.view, g.zones, p) > 0
    ensures InPlace(Flat(g.view, g.zones, g.n), p, off) <==>
            && BLOCK_SIZE * p + off >= 0
            && forall data: seq<Byte> :: |data| == len ==>
                 g.Wrote(g.Put(Slot(g.view, g.zones, p) * BLOCK_SIZE + off, data), BLOCK_SIZE * p + off, data)
  {
    hide Tree, Slot, Synced, Snapshot.Wrote, Snapshot.Put, Flat;
    DataIsSomewhere(g.view, g.zones, g.n, p);
    FlatAt(g.view, g.zones, g.n, p);
    if InPlace(Flat(g.view, g.zones, g.n), p, off) {
      forall data: seq<Byte> | |data| == len
        ensures g.Wrote(g.Put(Slot(g.view, g.zones, p) * BLOCK_SIZE + off, data), BLOCK_SIZE * p + off, data)
      {
        PutWrites(g, p, off, data);
      }
    } else if p > 0 {
      var data := OtherBytes(g, p, off, len);
    }
  }

  lemma FlatAt(view: PointerView, zones: Zones, n: nat, p: nat)
    requires p < n <= MAX_ZONES
    ensures |Flat(view, zones, n)| == n && Flat(view, zones, n)[p] == Slot(view, zones, p)
  {
  }

  /** Bytes that miss the file, because they differ from the one it has at that place. */
  lemma OtherBytes(g: Snapshot, p: nat, off: int, len: nat) returns (data: seq<Byte>)
    requires Synced(g.disk, g.view) && Tree(g.view, g.zones, g.n) && 0 < p < g.n
    requires -BLOCK_SIZE < off && 0 < len <= BLOCK_SIZE - off && !InPlace(Flat(g.view, g.zones, g.n), p, off)
    ensures Slot(g.view, g.zones, p) > 0 && |data| == len
    ensures !g.Wrote(g.Put(Slot(g.view, g.zones, p) * BLOCK_SIZE + off, data), BLOCK_SIZE * p + off, data)
  {
    hide Tree, Slot, Synced, View, WriteBytes, Decode, Fetch, Contents, ByteAt, Address;
    DataIsSomewhere(g.view, g.zones, g.n, p);
    var z, flat, at: nat := Slot(g.view, g.zones, p), Flat(g.view, g.zones, g.n), BLOCK_SIZE * p + off;
    var addr := z * BLOCK_SIZE + off;
    ContentsLength(g.disk, flat);
    ByteAtAddress(g.disk, flat, at);
    var was := Contents(g.disk, flat)[at];
    var other: Byte := if was == 0 then 1 else 0;
    data := seq(len, _ => other);
    var h := g.Put(addr, data);
    ContentsLength(h.disk, flat);
    ByteAtAddress(h.disk, flat, at);
    AddressIn(flat, p - 1, BLOCK_SIZE + off);
    FlatDistinct(g.view, g.zones, g.n);
    WrittenByte(g.disk, addr, data, Address(flat, at));
    if g.Wrote(h, at, data) {
      FirstWritten(g, h, at, data);
    }
  }

  lemma FirstWritten(g: Snapshot, h: Snapshot, at: nat, data: seq<Byte>)
    requires g.Wrote(h, at, data) && h.n == g.n && data != []
    ensures at < |Contents(h.disk, Flat(g.view, g.zones, g.n))|
    ensures Contents(h.disk, Flat(g.view, g.zones, g.n))[at] == data[0]
  {
    hide Contents;
    assert Flat(h.view, h.zones, h.n) == Flat(g.view, g.zones, g.n);
    assert h.Bytes()[at + 0] == data[0];
  }

  /** The zone reached len bytes behind offset off of zone p. */
  ghost function Reached(p: nat, off: int, len: nat): nat {
    if off + len < 0 then p else p + (off + len) / BLOCK_SIZE
  }

  lemma ReachedCases(p: nat, off: int, len: nat)
    ensures off + len < BLOCK_SIZE ==> Reached(p, off, len) == p
    ensures off + len >= BLOCK_SIZE ==>
              var rest := off + len - BLOCK_SIZE;
              && Reached(p, off, len) == p + 1 + rest / BLOCK_SIZE && (off + len) % BLOCK_SIZE == rest % BLOCK_SIZE
              && BLOCK_SIZE * (p + 1) + rest == BLOCK_SIZE * p + off + len
  {
  }

  /** The in-zone offset write leaves: 1024 when it exactly fills a zone that is not the last. */
  ghost function FinalByte(n: nat, p: nat, off: int, len: nat): nat {
    if off + len < BLOCK_SIZE then Unsigned(off + len)
    else if off < BLOCK_SIZE && off + len == BLOCK_SIZE && p + 1 < n then BLOCK_SIZE
    else (off + len) % BLOCK_SIZE
  }

  /**
    When write leaves a right position.  It does not when it ends before the zone it stands
    in, nor when it exactly fills a zone that is not the file's last (the offset stays 1024),
    nor when it runs into the next zone by fewer than 1024 bytes and that zone is not the
    next one on the disk.
   */
  ghost predicate KeepsPlace(flat: seq<U32>, p: nat, off: int, len: nat)
    requires p < |flat|
  {
    || off == BLOCK_SIZE
    || 0 <= off + len < BLOCK_SIZE
    || (p + 1 == |flat| && off + len >= 0)
    || off + len >= 2 * BLOCK_SIZE
    || (off + len > BLOCK_SIZE && flat[p + 1] as int == flat[p] as int + 1)
  }

  /**
    The position write leaves, device address fp2 in zone z2: its offset b2, and that a device
    address fp which agreed with the offset before still does, at the byte reached, exactly if
    KeepsPlace holds.
   */
  ghost predicate Leaves(flat: seq<U32>, p: nat, off: int, len: nat, fp: nat, z2: U32, fp2: nat, b2: nat)
    requires p < |flat|
  {
    && b2 == FinalByte(|flat|, p, off, len) && OffsetOk(b2)
    && (fp == flat[p] * BLOCK_SIZE + off ==>
          (b2 == (off + len) % BLOCK_SIZE && fp2 == z2 * BLOCK_SIZE + b2 <==> KeepsPlace(flat, p, off, len)))
  }

  /** The position write leaves beyond its first zone, from what its parts leave. */
  lemma PlaceBehind(flat: seq<U32>, p: nat, off: int, len: nat, fp: nat, z1: U32, z2: U32, fp1: nat,
                    fp2: nat, b1: nat, b2: nat)
    requires p < |flat| && -BLOCK_SIZE < off <= BLOCK_SIZE && off + len >= BLOCK_SIZE && len > 0
    requires (p + 1 < |flat| ==> z1 == flat[p + 1])
    requires b1 == if p + 1 == |flat| && off < BLOCK_SIZE then 0 else BLOCK_SIZE
    requires fp1 == if p + 1 == |flat| || off == BLOCK_SIZE then z1 * BLOCK_SIZE else fp + (BLOCK_SIZE - off)
    requires var rest := off + len - BLOCK_SIZE;
             && b2 == (if rest == 0 then b1 else rest % BLOCK_SIZE)
             && (rest < BLOCK_SIZE ==> z2 == z1 && fp2 == fp1 + rest)
             && (rest >= BLOCK_SIZE ==> fp2 == z2 * BLOCK_SIZE + b2)
    ensures Leaves(flat, p, off, len, fp, z2, fp2, b2)
  {
  }

  lemma PlaceWithin(flat: seq<U32>, p: nat, off: int, len: nat, fp: nat)
    requires p < |flat| && -BLOCK_SIZE < off && off + len < BLOCK_SIZE
    ensures Leaves(flat, p, off, len, fp, flat[p], fp + len, Unsigned(off + len))
  {
  }

  lemma NeededForOne(n: nat)
    ensures NeededUpTo(n, n + 1) == Needed(n) && NeededUpTo(n, n) == 0
  {
  }

  lemma NoneNeeded(n: nat, hi: nat)
    requires hi <= n
    ensures NeededUpTo(n, hi) == 0
  {
  }

  /**
    A write that goes on in zone p + 1 of a file of n zones, which has `mid` zones and `left`
    free ones when it gets there, and then needs `goal` zones in all.
   */
  lemma ZonesSpent(n: nat, p: nat, goal: nat, mid: nat, free: nat, left: nat)
    requires p < n && p + 2 <= goal
    requires mid == if p + 1 == n then n + 1 else n
    requires left == free - if p + 1 == n then Needed(n) else 0
    ensures left < NeededUpTo(mid, goal) <==> free < NeededUpTo(n, goal)
    ensures var end := if mid < goal then goal else mid;
            && end == (if n < goal then goal else n)
            && free - NeededUpTo(n, end) == left - NeededUpTo(mid, end)
  {
    hide Needed;
    NeededForOne(n);
    if mid <= goal {
      NeededSplit(n, mid, goal);
    } else {
      NoneNeeded(n, goal);
      NoneNeeded(mid, goal);
      NoneNeeded(mid, mid);
    }
  }

  const UINT64 := 0x1_0000_0000_0000_0000

  type UInt64 = x: int | 0 <= x < UINT64
  type Int64 = x: int | -UINT64 / 2 <= x < UINT64 / 2

  /** A value converted to an unsigned 64-bit number, and from it to a signed one. */
  function Unsigned(x: int): nat {
    x % UINT64
  }

  function Signed(x: int): Int64 {
    if Unsigned(x) < UINT64 / 2 then Unsigned(x) else Unsigned(x) - UINT64
  }

  /** The signed meaning of an in-block offset: lseek leaves one before the zone as a huge number. */
  function Offset(fpByte: nat): int {
    if fpByte <= BLOCK_SIZE then fpByte else fpByte - UINT64
  }

  /** The in-block offsets that occur: at most 1024, or less than 1024 bytes before the zone. */
  predicate OffsetOk(fpByte: nat) {
    fpByte < UINT64 && Offset(fpByte) > -BLOCK_SIZE
  }

  /** The bytes left in the zone, as write and read compute them in 32 bits (src/minix3.c:1668-1671, 1819). */
  function Remaining(fpByte: nat): nat {
    (BLOCK_SIZE - fpByte) % 0x1_0000_0000
  }

  lemma OffsetWords(fpByte: nat, z: U32, k: nat)
    requires OffsetOk(fpByte) && z > 0 && Offset(fpByte) + k <= BLOCK_SIZE
    ensures Remaining(fpByte) == BLOCK_SIZE - Offset(fpByte)
    ensures Unsigned(fpByte + z * BLOCK_SIZE) == z * BLOCK_SIZE + Offset(fpByte)
    ensures Unsigned(fpByte + k) == Unsigned(Offset(fpByte) + k)
    ensures OffsetOk(Unsigned(fpByte + k)) && Offset(Unsigned(fpByte + k)) == Offset(fpByte) + k
  {
  }

  lemma SignedOffset(fpByte: nat)
    requires OffsetOk(fpByte)
    ensures -BLOCK_SIZE < Offset(fpByte) <= BLOCK_SIZE
  {
  }

  lemma EndOffset(fpByte: nat)
    requires OffsetOk(fpByte) && Offset(fpByte) == BLOCK_SIZE
    ensures fpByte == BLOCK_SIZE
  {
  }

  /** The inode's 32-bit size after the position has moved to `total` (src/minix3.c:1853-1856). */
  function Bumped(size: nat, total: nat): nat {
    if total > size then total % 0x1_0000_0000 else size
  }

  /** The size after len bytes, stored in one part of `first` bytes and parts of 1024 behind it. */
  ghost function Sizes(size: nat, total: nat, len: nat, first: nat): nat
    requires first > 0
    decreases len
  {
    if len == 0 then size
    else
      var k := if len < first then len else first;
      Sizes(Bumped(size, Unsigned(total + k)), Unsigned(total + k), len - k, BLOCK_SIZE)
  }

  lemma BumpedPlain(size: nat, total: nat)
    requires total < 0x1_0000_0000
    ensures Bumped(size, total) == if total > size then total else size
  {
  }

  /** As long as nothing wraps, the size is the furthest position there was. */
  lemma {:induction false} SizesPlain(size: nat, total: nat, len: nat, first: nat)
    requires first > 0 && total + len < 0x1_0000_0000
    ensures Sizes(size, total, len, first) == if len > 0 && total + len > size then total + len else size
    decreases len
  {
    hide Bumped, Unsigned;
    if len > 0 {
      var k := if len < first then len else first;
      PlainTotal(total + k);
      BumpedPlain(size, total + k);
      SizesPlain(Bumped(size, total + k), total + k, len - k, BLOCK_SIZE);
    }
  }

  lemma PlainTotal(x: nat)
    requires x < UINT64
    ensures Unsigned(x) == x
  {
  }

  /** One whole zone of those parts. */
  lemma SizesStep(size: nat, total: nat, len: nat)
    requires len >= BLOCK_SIZE
    ensures var t := Unsigned(total + BLOCK_SIZE);
            Sizes(size, total, len, BLOCK_SIZE) == Sizes(Bumped(size, t), t, len - BLOCK_SIZE, BLOCK_SIZE)
  {
  }

  /** The last part. */
  lemma SizesEnd(size: nat, total: nat, len: nat)
    requires len < BLOCK_SIZE
    ensures Sizes(size, total, len, BLOCK_SIZE) == if len == 0 then size else Bumped(size, Unsigned(total + len))
  {
  }

  /** The first part, if it is not empty. */
  lemma SizesFirst(size: nat, total: nat, len: nat, first: nat)
    requires len > 0
    ensures first > len ==> Sizes(size, total, len, first) == Bumped(size, Unsigned(total + len))
    ensures 0 < first <= len ==>
              var t := Unsigned(total + first);
              Sizes(size, total, len, first) == Sizes(Bumped(size, t), t, len - first, BLOCK_SIZE)
  {
  }

  /** A small signed offset as a word, and back. */
  lemma WordOffset(off: int)
    requires -BLOCK_SIZE < off <= BLOCK_SIZE
    ensures OffsetOk(Unsigned(off)) && Offset(Unsigned(off)) == off
    ensures off >= 0 ==> Unsigned(off) == off
    ensures off < 0 ==> Unsigned(off) >= BLOCK_SIZE
  {
  }

  lemma WrapTwice(a: nat, b: nat, c: nat)
    ensures Unsigned(Unsigned(a + b) + c) == Unsigned(a + b + c)
  {
  }

  /** Division and remainder as C rounds them. */
  function TruncatedDiv(x: int): int {
    if x >= 0 then x / BLOCK_SIZE else -(-x / BLOCK_SIZE)
  }

  function TruncatedMod(x: int): int {
    if x >= 0 then x % BLOCK_SIZE else -(-x % BLOCK_SIZE)
  }

  predicate Whence(whence: int) {
    whence == SEEK_SET || whence == SEEK_CUR || whence == SEEK_END
  }

  /** The three values the code knows (src/include/minix3.h). */
  lemma WhenceIs(whence: int)
    ensures Whence(whence) <==> 0 <= whence <= 2
  {
  }

  lemma TruncatedCases(x: int)
    ensures -BLOCK_SIZE < TruncatedMod(x) < BLOCK_SIZE
    ensures x >= 0 ==> TruncatedMod(x) >= 0
    ensures x < 0 ==> TruncatedMod(x) <= 0
    ensures TruncatedMod(x) == 0 <==> x % BLOCK_SIZE == 0
  {
    if x < 0 {
      NegatedRemainder(-x);
    }
  }

  lemma NegatedRemainder(x: int)
    ensures x % BLOCK_SIZE == 0 <==> (-x) % BLOCK_SIZE == 0
  {
    var q, r := x / BLOCK_SIZE, x % BLOCK_SIZE;
    var p, t := -x / BLOCK_SIZE, -x % BLOCK_SIZE;
    assert x == BLOCK_SIZE * q + r && -x == BLOCK_SIZE * p + t;
    assert r + t == BLOCK_SIZE * (-q - p);
  }

  /** The words lseek computes with, for the remainder m of its target. */
  lemma SeekWords(zone: nat, z: U32, target: int)
    requires zone < MAX_ZONES && z > 0
    ensures var m := TruncatedMod(target);
            var at := BLOCK_SIZE * zone;
            && Unsigned(z * BLOCK_SIZE + Unsigned(m)) == z * BLOCK_SIZE + m
            && OffsetOk(Unsigned(m)) && Offset(Unsigned(m)) == m
            && Unsigned(Unsigned(Unsigned(m)) + at) == Unsigned(at + m) && Signed(at + Unsigned(m)) == at + m
            && (m >= 0 <==> target >= 0 || target % BLOCK_SIZE == 0)
            && (m >= 0 ==> Unsigned(m) == m < BLOCK_SIZE && Unsigned(at + m) == at + m)
            && (m < 0 ==> Unsigned(m) >= BLOCK_SIZE)
  {
    hide TruncatedMod, OffsetOk, Offset;
    TruncatedCases(target);
    var m := TruncatedMod(target);
    WordOffset(m);
    if m < 0 {
      WrapNegative(m);
      WrapAgain(z * BLOCK_SIZE, m);
      WrapAgain(BLOCK_SIZE * zone, m);
    }
  }

  lemma PlainTarget(target: Int64)
    requires target >= 0
    ensures Unsigned(TruncatedDiv(target)) == target / BLOCK_SIZE && TruncatedMod(target) == target % BLOCK_SIZE
  {
  }

  lemma WrapNegative(m: int)
    requires -BLOCK_SIZE < m < 0
    ensures Unsigned(m) == UINT64 + m
  {
  }

  lemma WrapAgain(a: nat, m: int)
    ensures Unsigned(a + (UINT64 + m)) == Unsigned(a + m)
    ensures -BLOCK_SIZE < m < 0 && a < UINT64 / 4 ==> Signed(a + (UINT64 + m)) == a + m
  {
  }

  lemma PlainWords(total: nat, z: U32)
    requires total < UINT64
    ensures Unsigned(z * BLOCK_SIZE) == z * BLOCK_SIZE && Unsigned(total) == total && Signed(0) == 0
  {
  }

  lemma LimitCases(count: UInt64, t: nat, size: nat)
    requires size < UINT64 && t < BLOCK_SIZE * MAX_ZONES
    ensures var limit := if Unsigned(count + t) > size then Unsigned(size - t) else count;
            && (t > size || count + t >= UINT64 ==> limit > 0 && t + limit >= BLOCK_SIZE * MAX_ZONES)
            && (t <= size && count + t < UINT64 ==> limit == if count + t > size then size - t else count)
  {
  }

  lemma AppendsTo(before: seq<Byte>, after: seq<Byte>, size: nat, data: seq<Byte>)
    requires Overwrites(before, after, size, data) && size <= |before|
    ensures after[..size + |data|] == before[..size] + data
  {
  }

  lemma FetchSplit(disk: Disk, addr: nat, a: nat, b: nat)
    ensures FetchBytes(disk, addr, a + b) == FetchBytes(disk, addr, a) + FetchBytes(disk, addr + a, b)
    ensures |FetchBytes(disk, addr, a)| == a && |FetchBytes(disk, addr + a, b)| == b
  {
    hide ByteAt;
  }

  lemma Delivered(all: seq<Byte>, t: nat, data: seq<Byte>, rest: seq<Byte>)
    requires t <= |all| && data + rest == all[t..]
    ensures t + |data| <= |all| && data == all[t..t + |data|]
  {
    assert |data| + |rest| == |all| - t;
    assert data == (data + rest)[..|data|];
  }

  lemma ZeroOffset(fpByte: nat)
    ensures fpByte == 0 ==> Offset(fpByte) == 0
  {
  }

  lemma SlicesJoin(s: seq<Byte>, a: nat, b: nat, c: nat)
    requires a <= b <= c <= |s|
    ensures s[a..b] + s[b..c] == s[a..c]
  {
  }

  class OpenFile {
    const firstDataZone: U32
    const numZones: nat
    var disk: Disk
    ghost var view: PointerView
    var zmap: Bitmap
    ghost var used: set<nat>
    ghost var n: nat
    var zones: Zones
    var size: nat
    var cur: Cursor
    var fpBlock: U32
    var fpByte: nat
    var filePointer: nat
    var totalRead: nat

    /** Reads a zone as 256 zone numbers. */
    method ReadPointers(z: U32) returns (p: Pointers)
      requires Synced(disk, view)
      ensures p == Row(view, z)
    {
      p := FetchPointers(disk, z);
    }

    /** Writes 256 zone numbers as one zone. */
    method WritePointers(z: U32, p: Pointers)
      requires Synced(disk, view)
      modifies `disk, `view
      ensures Synced(disk, view) && view == old(view)[z := p]
      ensures forall y: nat :: y != z ==> Fetch(disk, y) == old(Fetch(disk, y))
    {
      SyncedPointerWrite(disk, view, z, p);
      disk := disk[z := Encode(p)];
      view := view[z := p];
    }

    /** Direct part of get_next_zone (src/minix3.c:488-499). */
    method NextDirect() returns (found: bool)
      requires cur.z0 < ZONE_INDIR
      modifies `cur, `fpBlock
      ensures found ==> old(cur.z0) < cur.z0 < ZONE_INDIR && cur == old(cur).(z0 := cur.z0)
      ensures found ==> fpBlock == Slot(view, zones, cur.z0) != 0
      ensures !found ==> cur == old(cur).(z0 := ZONE_INDIR, z1 := NONE)
      ensures Holes(view, zones, old(cur.z0) + 1, cur.z0)
    {
      var i := cur.z0 + 1;
      while i < ZONE_INDIR
        invariant old(cur.z0) < i <= ZONE_INDIR
        invariant cur == old(cur).(z0 := i - 1)
        invariant forall r :: old(cur.z0) < r < i ==> zones[r] == 0
      {
        cur := cur.(z0 := i);
        fpBlock := zones[i];
        if zones[i] != 0 { return true; }
        i := i + 1;
      }
      cur := cur.(z0 := ZONE_INDIR, z1 := NONE);
      return false;
    }

    /** Single-indirect part of get_next_zone (src/minix3.c:501-539). */
    method NextSingle() returns (found: bool)
      requires Synced(disk, view)
      requires cur.z0 == ZONE_INDIR && zones[ZONE_INDIR] != 0 && Inc(cur.z1) <= NUM_POINTERS
      modifies `cur, `fpBlock
      ensures found ==> Inc(old(cur.z1)) <= cur.z1 < NUM_POINTERS && cur == old(cur).(z1 := cur.z1)
      ensures found ==> fpBlock == Slot(view, zones, ZONE_INDIR + cur.z1) != 0
      ensures !found ==> cur == old(cur).(z0 := ZONE_DINDIR, z1 := 0, z2 := NONE)
      ensures Holes(view, zones, ZONE_INDIR + Inc(old(cur.z1)), if found then ZONE_INDIR + cur.z1 else FIRST_DOUBLE)
    {
      var spointer := ReadPointers(zones[ZONE_INDIR]);
      var j: nat := Inc(cur.z1);
      while j < NUM_POINTERS
        invariant Inc(old(cur.z1)) <= j <= NUM_POINTERS
        invariant cur == old(cur).(z1 := cur.z1)
        invariant Holes(view, zones, ZONE_INDIR + Inc(old(cur.z1)), ZONE_INDIR + j)
      {
        cur := cur.(z1 := j);
        if spointer[j] != 0 {
          fpBlock := spointer[j];
          return true;
        }
        j := j + 1;
      }
      cur := cur.(z0 := ZONE_DINDIR, z1 := 0, z2 := NONE);
      return false;
    }

    /** Double-indirect part of get_next_zone (src/minix3.c:541-591). */
    method NextDouble() returns (found: bool)
      requires Synced(disk, view)
      requires cur.z0 == ZONE_DINDIR && zones[ZONE_DINDIR] != 0 && cur.z1 < NUM_POINTERS
      requires Inc(cur.z2) <= NUM_POINTERS
      requires cur.z2 == NONE || LeafZone(view, zones, cur.z1) != 0
      modifies `cur, `fpBlock
      ensures found ==> cur.z1 < NUM_POINTERS && cur.z2 < NUM_POINTERS
      ensures found ==> cur == old(cur).(z1 := cur.z1, z2 := cur.z2)
      ensures found ==> PosOf(cur) >= FIRST_DOUBLE + NUM_POINTERS * old(cur.z1) + Inc(old(cur.z2))
      ensures found ==> fpBlock == Slot(view, zones, PosOf(cur)) != 0
      ensures !found ==> cur == Cursor(ZONE_TINDIR, 0, 0, NONE)
      ensures Holes(view, zones, FIRST_DOUBLE + NUM_POINTERS * old(cur.z1) + Inc(old(cur.z2)),
                    if found then PosOf(cur) else MAX_ZONES)
    {
      var dpointer := ReadPointers(zones[ZONE_DINDIR]);
      ghost var lo := FIRST_DOUBLE + NUM_POINTERS * cur.z1 + Inc(cur.z2);
      var j: nat := cur.z1;
      while j < NUM_POINTERS
        invariant old(cur.z1) <= j <= NUM_POINTERS
        invariant cur == old(cur).(z1 := cur.z1, z2 := cur.z2)
        invariant j == old(cur.z1) ==> cur == old(cur)
        invariant j != old(cur.z1) ==> cur.z2 == NONE
        invariant Holes(view, zones, lo, FIRST_DOUBLE + NUM_POINTERS * j)
      {
        cur := cur.(z1 := j);
        if dpointer[j] != 0 {
          found := NextInLeaf(dpointer[j]);
          if found { return true; }
          cur := cur.(z2 := NONE);
        } else {
          NoLeafHoles(view, zones, j);
        }
        j := j + 1;
      }
      cur := cur.(z0 := ZONE_TINDIR, z1 := 0, z2 := 0, z3 := NONE);
      return false;
    }

    /** The innermost loop over one leaf (src/minix3.c:557-574). */
    method NextInLeaf(leaf: U32) returns (found: bool)
      requires Synced(disk, view)
      requires cur.z0 == ZONE_DINDIR && cur.z1 < NUM_POINTERS && Inc(cur.z2) <= NUM_POINTERS
      requires leaf == LeafZone(view, zones, cur.z1) != 0
      modifies `cur, `fpBlock
      ensures found ==> Inc(old(cur.z2)) <= cur.z2 < NUM_POINTERS && cur == old(cur).(z2 := cur.z2)
      ensures found ==> fpBlock == Slot(view, zones, PosOf(cur)) != 0
      ensures !found ==> cur == old(cur)
      ensures Holes(view, zones, FIRST_DOUBLE + NUM_POINTERS * cur.z1 + Inc(old(cur.z2)),
                    if found then PosOf(cur) else FIRST_DOUBLE + NUM_POINTERS * (cur.z1 + 1))
    {
      var spointer := ReadPointers(leaf);
      var k: nat := Inc(cur.z2);
      while k < NUM_POINTERS
        invariant Inc(cur.z2) <= k <= NUM_POINTERS
        invariant cur == old(cur)
        invariant forall r :: Inc(cur.z2) <= r < k ==> spointer[r] == 0
      {
        if spointer[k] != 0 {
          SlotInLeaf(view, zones, cur.z1, k);
          LeafHoles(view, zones, cur.z1, Inc(cur.z2), k);
          cur := cur.(z2 := k);
          fpBlock := spointer[k];
          return true;
        }
        k := k + 1;
      }
      LeafHoles(view, zones, cur.z1, Inc(cur.z2), NUM_POINTERS);
      return false;
    }

    /** What a call of get_next_zone may assume: the cursor stands on a slot the code put it on. */
    ghost predicate CanWalk()
      reads this
    {
      && Synced(disk, view) && OnGrid(cur) && zones[ZONE_TINDIR] == 0
      && (PosOf(cur) < FIRST_DOUBLE || Slot(view, zones, PosOf(cur)) != 0)
    }

    /** get_next_zone (src/minix3.c:481-659): the next occupied slot below the horizon. */
    method GetNextZone() returns (found: bool)
      requires CanWalk()
      modifies `cur, `fpBlock
      ensures found ==> OnGrid(cur) && old(PosOf(cur)) < PosOf(cur) < Horizon(zones, old(PosOf(cur)))
      ensures found ==> fpBlock == Slot(view, zones, PosOf(cur)) != 0
      ensures Holes(view, zones, old(PosOf(cur)) + 1,
                    if found then PosOf(cur) else Horizon(zones, old(PosOf(cur))))
    {
      hide Slot, LeafZone, Row, CursorAt, Synced;
      GridForms(cur);
      NoIndirectZones(view, zones);
      if PosOf(cur) >= FIRST_DOUBLE { OccupiedLeaf(view, zones, cur.z1, cur.z2); }
      if cur.z0 < ZONE_INDIR {
        found := NextDirect();
        if found {
          DirectOnGrid(cur);
          return true;
        }
      }
      if cur.z0 == ZONE_INDIR && zones[ZONE_INDIR] != 0 {
        found := NextSingle();
        if found {
          SingleOnGrid(cur);
          return true;
        }
      }
      if cur.z0 == ZONE_DINDIR && zones[ZONE_DINDIR] != 0 {
        found := NextDouble();
        if found {
          DoubleOnGrid(cur);
          return true;
        }
      }
      return false;
    }

    /** get_next_zone_wrapper (src/minix3.c:661-678): a failed walk leaves the position as it was. */
    method GetNextZoneWrapper() returns (found: bool)
      requires CanWalk()
      modifies `cur, `fpBlock
      ensures found ==> OnGrid(cur) && old(PosOf(cur)) < PosOf(cur) < Horizon(zones, old(PosOf(cur)))
      ensures found ==> fpBlock == Slot(view, zones, PosOf(cur)) != 0
      ensures found ==> Holes(view, zones, old(PosOf(cur)) + 1, PosOf(cur))
      ensures !found ==> cur == old(cur) && fpBlock == old(fpBlock)
      ensures !found ==> Holes(view, zones, old(PosOf(cur)) + 1, Horizon(zones, old(PosOf(cur))))
    {
      var savedCur, savedBlock := cur, fpBlock;
      found := GetNextZone();
      if !found {
        cur := savedCur;
        fpBlock := savedBlock;
      }
    }

    /** Walks from the cursor to the end, collecting the zone of every stop. */
    method Enumerate() returns (found: seq<U32>)
      requires CanWalk()
      modifies `cur, `fpBlock
      ensures found == Occupied(view, zones, old(PosOf(cur)) + 1, Horizon(zones, old(PosOf(cur))))
    {
      hide Slot, LeafZone, Row, CursorAt, Synced;
      found := [];
      ghost var start, hi := PosOf(cur), Horizon(zones, PosOf(cur));
      var more := true;
      while more
        invariant CanWalk() && start <= PosOf(cur)
        invariant PosOf(cur) < hi == Horizon(zones, PosOf(cur))
        invariant found == Occupied(view, zones, start + 1, PosOf(cur) + 1)
        invariant !more ==> Holes(view, zones, PosOf(cur) + 1, hi)
        decreases MAX_ZONES - PosOf(cur), more
      {
        ghost var p := PosOf(cur);
        more := GetNextZoneWrapper();
        if more {
          OccupiedOverHoles(view, zones, start + 1, p + 1, PosOf(cur));
          found := found + [fpBlock];
        }
      }
      OccupiedOverHoles(view, zones, start + 1, PosOf(cur) + 1, hi);
    }

    /** The store, the bitmap and their abstract views agree, and zone numbers fit 32 bits. */
    ghost predicate FsOk()
      reads `disk, `view, `zmap, `used
    {
      && Synced(disk, view) && Marks(zmap, firstDataZone, used)
      && 0 < numZones <= 8 * |zmap| && firstDataZone + numZones < 0x1_0000_0000
      && firstDataZone in used
    }

    /** The inode's zone tree is dense with n data zones, all marked used. */
    ghost predicate TreeOk()
      reads `disk, `view, `zmap, `used, `zones, `n
    {
      FsOk() && 1 <= n <= MAX_ZONES && Tree(view, zones, n) && Owned(view, zones, n, used)
    }

    ghost function FreeZones(): nat
      reads `used
    {
      FreeCount(used, firstDataZone, numZones)
    }

    /** find_next_datazone (src/minix3.c:62-79); 0 is returned where the code spins. */
    method FindNextDatazone() returns (zone: U32)
      requires FsOk()
      modifies `zmap, `used
      ensures FsOk()
      ensures zone == 0 <==> old(FreeZones()) == 0
      ensures zone == 0 ==> zmap == old(zmap) && used == old(used)
      ensures zone != 0 ==> zone < numZones && used == old(used) + {firstDataZone + zone}
      ensures zone != 0 ==> firstDataZone + zone !in old(used)
      ensures zone != 0 ==> forall z: nat :: firstDataZone <= z < firstDataZone + zone ==> z in old(used)
      ensures zone != 0 ==> FreeZones() == old(FreeZones()) - 1
    {
      zone := 0;
      var i: U32 := 0;
      while i < numZones
        invariant i <= numZones && zmap == old(zmap) && used == old(used) && zone == 0
        invariant forall z: nat :: firstDataZone <= z < firstDataZone + i ==> z in used
      {
        if !Taken(zmap, i) {
          SetMarks(zmap, firstDataZone, used, i);
          TakingUsesOne(used, firstDataZone, numZones, firstDataZone + i);
          FreeCountZero(used, firstDataZone, numZones);
          zmap := Set(zmap, i);
          used := used + {firstDataZone + i};
          zone := i;
          return;
        }
        i := i + 1;
      }
      FreeCountZero(used, firstDataZone, numZones);
    }

    /** The disk and file as they are now. */
    ghost function Now(): Snapshot
      reads `disk, `view, `zones, `n, `used
    {
      Snapshot(disk, view, zones, n, used, firstDataZone, firstDataZone + numZones)
    }

    /** A data zone d has just been claimed for position n; g was the state before that. */
    ghost predicate Growing(g: Snapshot, d: U32)
      reads this
    {
      && FsOk() && g == Now().(used := g.used)
      && Tree(view, zones, n) && n < MAX_ZONES && Owned(view, zones, n, g.used)
      && d !in g.used && d != 0 && used == g.used + {d} && InPool(d)
    }

    ghost predicate InPool(z: nat) {
      firstDataZone <= z < firstDataZone + numZones
    }

    /** The file of g has grown by the data zone d and the cursor stands on it. */
    ghost predicate Appended(g: Snapshot, d: U32)
      requires g.n < MAX_ZONES
      reads `disk, `view, `zones, `n, `used, `zmap, `cur
    {
      && TreeOk() && n == g.n + 1 && cur == CursorAt(n - 1) && g.used <= used
      && Flat(view, zones, n) == Flat(g.view, g.zones, g.n) + [d]
      && (forall z: nat :: z in used - g.used ==> InPool(z))
      && (forall z: nat :: Holds(view, zones, n, z) ==> Holds(g.view, g.zones, g.n, z) || z in used - g.used)
      && (forall z: nat :: !PointerZone(g.view, g.zones, g.n, z) && z !in used - g.used
            ==> Fetch(disk, z) == Fetch(g.disk, z))
    }

    method ExtendDirect(ghost g: Snapshot, d: U32)
      requires Growing(g, d) && n < ZONE_INDIR && cur == CursorAt(n - 1)
      modifies `zones, `cur, `fpBlock, `n
      ensures Appended(g, d) && fpBlock == d
    {
      hide Tree, Owned, Flat, PointerZone, Holds, Synced, Marks, FreeCount;
      GrowDirect(view, zones, n, g.used, d);
      zones := zones[cur.z0 + 1 := d];
      cur := cur.(z0 := cur.z0 + 1);
      fpBlock := d;
      n := n + 1;
    }

    method StartSingle(ghost g: Snapshot, d: U32) returns (hung: bool)
      requires Growing(g, d) && n == ZONE_INDIR && cur == CursorAt(n - 1)
      modifies `zones, `cur, `fpBlock, `n, `zmap, `used, `disk, `view
      ensures hung <==> old(FreeZones()) == 0
      ensures !hung ==> Appended(g, d) && fpBlock == d && FreeZones() == old(FreeZones()) - 1
    {
      hide Tree, Owned, Flat, PointerZone, Holds, Synced, Marks, FreeCount;
      var num := FindNextDatazone();
      if num == 0 { return true; }
      var s := num + firstDataZone;
      GrowFirstSingle(view, zones, g.used, d, s);
      assert used == g.used + {d, s};
      WritePointers(s, OnePointer(d));
      zones := zones[ZONE_INDIR := s];
      cur := Cursor(ZONE_INDIR, 0, NONE, NONE);
      fpBlock := d;
      n := n + 1;
      return false;
    }

    method ExtendSingle(ghost g: Snapshot, d: U32)
      requires Growing(g, d) && ZONE_INDIR < n < FIRST_DOUBLE && cur == CursorAt(n - 1)
      modifies `cur, `fpBlock, `n, `disk, `view
      ensures Appended(g, d) && fpBlock == d
    {
      hide Tree, Owned, Flat, PointerZone, Holds, Synced, Marks, FreeCount;
      GrowSingle(view, zones, n, g.used, d);
      ghost var view' := view[zones[ZONE_INDIR] := Row(view, zones[ZONE_INDIR])[n - ZONE_INDIR := d]];
      assert cur.z1 + 1 == n - ZONE_INDIR;
      var pointers := ReadPointers(zones[ZONE_INDIR]);
      pointers := pointers[cur.z1 + 1 := d];
      WritePointers(zones[ZONE_INDIR], pointers);
      assert view == view';
      cur := cur.(z1 := cur.z1 + 1);
      fpBlock := d;
      n := n + 1;
    }

    method StartDouble(ghost g: Snapshot, d: U32) returns (hung: bool)
      requires Growing(g, d) && n == FIRST_DOUBLE && cur == CursorAt(n)
      modifies `zones, `cur, `fpBlock, `n, `zmap, `used, `disk, `view
      ensures hung <==> old(FreeZones()) < 2
      ensures !hung ==> Appended(g, d) && fpBlock == d && FreeZones() == old(FreeZones()) - 2
    {
      hide Tree, Owned, Flat, PointerZone, Holds, Synced, Marks, FreeZones, Slot, LeafZone, NodeZone, Row, Fetch;
      var sNum := FindNextDatazone();
      if sNum == 0 { return true; }
      var lNum := FindNextDatazone();
      if lNum == 0 { return true; }
      var s, l := sNum + firstDataZone, lNum + firstDataZone;
      GrowFirstDouble(view, zones, g.used, d, s, l);
      assert used == g.used + {d, s, l};
      WritePointers(s, OnePointer(l));
      WritePointers(l, OnePointer(d));
      cur := cur.(z1 := 0, z2 := 0, z3 := NONE);
      zones := zones[ZONE_DINDIR := s];
      fpBlock := d;
      n := n + 1;
      return false;
    }

    method StartLeaf(ghost g: Snapshot, d: U32) returns (hung: bool)
      requires Growing(g, d) && FIRST_DOUBLE < n && (n - FIRST_DOUBLE) % NUM_POINTERS == 0
      requires cur == CursorAt(n - 1)
      modifies `cur, `fpBlock, `n, `zmap, `used, `disk, `view
      ensures hung <==> old(FreeZones()) == 0
      ensures !hung ==> Appended(g, d) && fpBlock == d && FreeZones() == old(FreeZones()) - 1
    {
      hide Tree, Owned, Flat, PointerZone, Holds, Synced, Marks, FreeZones, Slot, LeafZone, NodeZone, Row, Fetch;
      CursorStep(n);
      var num := FindNextDatazone();
      if num == 0 { return true; }
      var s, l := zones[ZONE_DINDIR], num + firstDataZone;
      GrowNewLeaf(view, zones, n, g.used, d, l);
      assert used == g.used + {d, l};
      var pointers := ReadPointers(s);
      pointers := pointers[cur.z1 + 1 := l];
      WritePointers(s, pointers);
      WritePointers(l, OnePointer(d));
      cur := cur.(z1 := cur.z1 + 1, z2 := 0, z3 := NONE);
      fpBlock := d;
      n := n + 1;
      return false;
    }

    method ExtendLeaf(ghost g: Snapshot, d: U32)
      requires Growing(g, d) && FIRST_DOUBLE < n && (n - FIRST_DOUBLE) % NUM_POINTERS != 0
      requires cur == CursorAt(n - 1)
      modifies `cur, `fpBlock, `n, `disk, `view
      ensures Appended(g, d) && fpBlock == d
    {
      hide Tree, Owned, Flat, PointerZone, Holds, Synced, Marks, FreeCount;
      CursorStep(n);
      GrowLeaf(view, zones, n, g.used, d);
      var sPointers := ReadPointers(zones[ZONE_DINDIR]);
      var l := sPointers[cur.z1];
      var dPointers := ReadPointers(l);
      dPointers := dPointers[cur.z2 + 1 := d];
      WritePointers(l, dPointers);
      cur := cur.(z2 := cur.z2 + 1);
      fpBlock := d;
      n := n + 1;
    }

    /** The double-indirect part of alloc_new_zone (src/minix3.c:788-934). */
    method ExtendDouble(ghost g: Snapshot, d: U32) returns (hung: bool)
      requires Growing(g, d) && FIRST_DOUBLE <= n && cur == CursorAt(if n == FIRST_DOUBLE then n else n - 1)
      modifies `zones, `cur, `fpBlock, `n, `zmap, `used, `disk, `view
      ensures hung <==> old(FreeZones()) + 1 < Needed(g.n)
      ensures !hung ==> Appended(g, d) && fpBlock == d && FreeZones() + Needed(g.n) == old(FreeZones()) + 1
    {
      hide Tree, Owned, Flat, PointerZone, Holds, Synced, Marks, FreeZones;
      hide Slot, LeafZone, NodeZone, Row, Fetch, Appended;
      DoubleZone(view, zones, n);
      if n > FIRST_DOUBLE { CursorStep(n); }
      hung := false;
      if zones[ZONE_DINDIR] == 0 {
        hung := StartDouble(g, d);
      } else if cur.z2 == NUM_POINTERS - 1 && cur.z1 < NUM_POINTERS - 1 {
        hung := StartLeaf(g, d);
      } else {
        ExtendLeaf(g, d);
      }
    }

    /**
      alloc_new_zone (src/minix3.c:680-1068) below the triple-indirect range, so without
      the branch for a full double-indirect zone (src/minix3.c:887-889): the file grows by one
      zone, unless the disk has too few free zones, when the code spins.
     */
    method AllocNewZone() returns (r: Outcome<bool>)
      requires TreeOk() && n < MAX_ZONES && cur == CursorAt(n - 1)
      modifies `zones, `cur, `fpBlock, `n, `zmap, `used, `disk, `view
      ensures r == Hangs <==> old(FreeZones()) < Needed(old(n))
      ensures r.Returns? ==> r.value && Appended(old(Now()), fpBlock) && fpBlock !in old(used)
      ensures r.Returns? ==> forall z: nat :: firstDataZone <= z < fpBlock ==> z in old(used)
      ensures r.Returns? ==> FreeZones() == old(FreeZones()) - Needed(old(n))
    {
      hide Tree, Owned, Flat, PointerZone, Holds, Synced, Marks, FreeZones, Slot, LeafZone, NodeZone, Row, Fetch;
      hide Appended;
      ghost var g := Now();
      var datazone := FindNextDatazone();
      if datazone == 0 { return Hangs; }
      var d := firstDataZone + datazone;
      var zoneAlloc := false;
      if cur.z0 < ZONE_INDIR - 1 {
        ExtendDirect(g, d);
        zoneAlloc := true;
      }
      if cur.z0 <= ZONE_INDIR && !zoneAlloc {
        if cur.z0 == ZONE_INDIR - 1 {
          var hung := StartSingle(g, d);
          if hung { return Hangs; }
          zoneAlloc := true;
        } else if cur.z1 == NUM_POINTERS - 1 {
          cur := Cursor(ZONE_DINDIR, 0, 0, NONE);
        } else {
          ExtendSingle(g, d);
          zoneAlloc := true;
        }
      }
      if cur.z0 == ZONE_DINDIR && !zoneAlloc {
        var hung := ExtendDouble(g, d);
        if hung { return Hangs; }
        zoneAlloc := true;
      }
      fpBlock := d;
      return Returns(zoneAlloc);
    }

    /** All bytes held by the file's zones. */
    ghost function Stored(): seq<Byte>
      requires n <= MAX_ZONES
      reads `disk, `view, `zones, `n, `used
    {
      Now().Bytes()
    }

    /** The descriptor stands in data zone p. */
    ghost predicate InZone(p: nat)
      reads `disk, `view, `zmap, `used, `zones, `n, `cur, `fpBlock
    {
      TreeOk() && p < n <= MAX_ZONES && cur == CursorAt(p) && fpBlock == Slot(view, zones, p)
    }

    /** The descriptor stands at byte t of the file, and every position field says so. */
    ghost predicate At(t: nat)
      reads this
    {
      && InZone(t / BLOCK_SIZE) && fpByte == t % BLOCK_SIZE
      && filePointer == fpBlock * BLOCK_SIZE + fpByte && totalRead == t
    }

    /** block_write_wrapper at offset off of the zone the descriptor stands in. */
    method StoreBytes(addr: nat, data: seq<Byte>, ghost p: nat, ghost off: int)
      requires InZone(p) && data != [] && -BLOCK_SIZE < off && off + |data| <= BLOCK_SIZE
      requires addr == fpBlock * BLOCK_SIZE + off
      modifies `disk, `view
      ensures Now() == old(Now()).Put(addr, data)
      ensures old(Now()).Spares(fpBlock, off) ==> InZone(p) && Flat(view, zones, n) == old(Flat(view, zones, n))
      ensures InPlace(old(Flat(view, zones, n)), p, off) ==>
                && BLOCK_SIZE * p + off >= 0 && old(Now()).Wrote(Now(), BLOCK_SIZE * p + off, data)
                && old(Now()).Spares(fpBlock, off)
    {
      hide Tree, Owned, Synced, Marks, NodeZone, Slot, Flat, Snapshot.Wrote, Snapshot.Spares, InPlace, WriteBytes, View;
      ghost var g := Now();
      disk := WriteBytes(disk, addr, data);
      view := View(disk);
      FlatAt(g.view, zones, n, p);
      if g.Spares(fpBlock, off) {
        PutKeepsTree(g, p, off, data);
        SameNodes(g.view, view, zones, n, used);
        FlatAt(view, zones, n, p);
      }
      if InPlace(Flat(g.view, zones, n), p, off) {
        PutWrites(g, p, off, data);
        InPlaceSpares(g, p, off);
      }
    }

    /** get_next_zone_wrapper on a dense file: the next zone if there is one. */
    method DenseNext(ghost p: nat) returns (found: bool)
      requires InZone(p)
      modifies `cur, `fpBlock
      ensures found <==> p + 1 < n
      ensures InZone(if found then p + 1 else p)
    {
      hide Tree, Owned, Synced, Marks, NodeZone, Slot, LeafZone, Row;
      CursorRoundTrip(p);
      DenseSlots(view, zones, n);
      found := GetNextZoneWrapper();
      assert p + 1 < n ==> Slot(view, zones, p + 1) != 0;
      if found {
        assert PosOf(cur) == p + 1;
      }
    }

    /** To the next zone, allocating one behind the last. */
    method Advance(ghost p: nat) returns (hung: bool, grew: bool)
      requires InZone(p) && p + 1 < MAX_ZONES
      modifies `zones, `cur, `fpBlock, `n, `zmap, `used, `disk, `view
      ensures hung <==> p + 1 == old(n) && old(FreeZones()) < Needed(old(n))
      ensures !hung ==> InZone(p + 1) && (grew <==> p + 1 == old(n))
      ensures !hung ==> n == old(n) + if grew then 1 else 0
      ensures !hung ==> FreeZones() == old(FreeZones()) - if grew then Needed(old(n)) else 0
      ensures !hung ==> old(Now()).Wrote(Now(), BLOCK_SIZE * (p + 1), [])
      ensures !hung && !grew ==> fpBlock == old(Flat(view, zones, n))[p + 1]
    {
      hide Tree, Owned, PointerZone, Holds, Synced, Marks, FreeCount, Slot, Contents;
      var found := DenseNext(p);
      if found {
        return false, false;
      }
      forall i | 0 <= i < n
        ensures !PointerZone(view, zones, n, Flat(view, zones, n)[i])
        ensures Flat(view, zones, n)[i] in used
      {
        DataIsNotPointer(view, zones, n, i);
        DataIsOwned(view, zones, n, used, i);
      }
      var r := AllocNewZone();
      if r == Hangs {
        return true, false;
      }
      forall z: nat | PointerZone(old(view), old(zones), old(n), z)
        ensures Holds(old(view), old(zones), old(n), z)
      {
        PointerIsHeld(old(view), old(zones), old(n), z);
      }
      ExtendContents(old(disk), disk, old(Flat(view, zones, n)), fpBlock, BLOCK_SIZE * (p + 1));
      return false, true;
    }

    /**
      The first part of write (src/minix3.c:1813-1885): fills up the current zone and, if
      that reaches its end, goes to the next one.
     */
    method WriteHead(buf: seq<Byte>, ghost p: nat) returns (hung: bool, k: nat)
      requires InZone(p) && OffsetOk(fpByte) && buf != []
      requires BLOCK_SIZE * p + Offset(fpByte) + |buf| < BLOCK_SIZE * MAX_ZONES
      requires Offset(fpByte) + |buf| >= BLOCK_SIZE ==> Now().Spares(fpBlock, Offset(fpByte))
      modifies `zones, `cur, `fpBlock, `n, `zmap, `used, `disk, `view, `fpByte, `filePointer, `totalRead, `size
      ensures var off := Offset(old(fpByte)); k == if off + |buf| < BLOCK_SIZE then |buf| else BLOCK_SIZE - off
      ensures hung <==> Offset(old(fpByte)) + k == BLOCK_SIZE && p + 1 == old(n) && old(FreeZones()) < Needed(old(n))
      ensures old(fpBlock) > 0 && p < old(n) <= MAX_ZONES && Offset(old(fpByte)) <= BLOCK_SIZE
      ensures !hung ==> old(Now()).Stores(Now(), p, Offset(old(fpByte)), old(fpBlock), buf[..k])
      ensures !hung ==> totalRead == if k > 0 then Unsigned(old(totalRead) + k) else old(totalRead)
      ensures !hung ==> size == if k > 0 then Bumped(old(size), totalRead) else old(size)
      ensures !hung && Offset(old(fpByte)) + k < BLOCK_SIZE ==>
                && (old(Now().Spares(fpBlock, Offset(fpByte))) ==> InZone(p))
                && cur == old(cur) && fpBlock == old(fpBlock) && zmap == old(zmap)
                && n == old(n) && FreeZones() == old(FreeZones())
                && fpByte == Unsigned(Offset(old(fpByte)) + k) && filePointer == old(filePointer) + k
      ensures !hung && Offset(old(fpByte)) + k == BLOCK_SIZE ==>
                && InZone(p + 1) && n == (if p + 1 == old(n) then old(n) + 1 else old(n))
                && FreeZones() == old(FreeZones()) - (if p + 1 == old(n) then Needed(old(n)) else 0)
                && fpByte == (if p + 1 == old(n) && k > 0 then 0 else BLOCK_SIZE)
                && filePointer == (if p + 1 == old(n) || k == 0 then fpBlock * BLOCK_SIZE else old(filePointer) + k)
                && (p + 1 < old(n) ==> fpBlock == old(Flat(view, zones, n))[p + 1])
    {
      hide InZone, Slot, CursorAt, Flat, Now, FreeZones, Snapshot.Wrote, Snapshot.Put, Needed, InPlace, Unsigned;
      hide Snapshot.Spares, Snapshot.Stores, Remaining, Offset, Bumped;
      InZoneFacts(p);
      NowIs();
      ghost var off := Offset(fpByte);
      SignedOffset(fpByte);
      OffsetWords(fpByte, fpBlock, 0);
      var remaining := Remaining(fpByte);
      k := 0;
      if remaining == 0 {
        EndOffset(fpByte);
        var grew;
        hung, grew := Advance(p);
        if hung { return; }
        filePointer := fpBlock * BLOCK_SIZE;
        StoresNone(old(Now()), Now(), p, old(fpBlock));
        assert buf[..k] == [];
      } else {
        k := if |buf| <= remaining then |buf| else remaining;
        OffsetWords(fpByte, fpBlock, k);
        WordOffset(off + k);
        StoreBytes(Unsigned(fpByte + fpBlock * BLOCK_SIZE), buf[..k], p, off);
        ghost var mid := Now();
        fpByte := Unsigned(fpByte + k);
        totalRead := Unsigned(totalRead + k);
        size := Bumped(size, totalRead);
        filePointer := filePointer + k;
        hung := false;
        if k == remaining {
          var grew;
          hung, grew := Advance(p);
          if hung { return; }
          if grew {
            fpByte := 0;
            filePointer := fpBlock * BLOCK_SIZE;
          }
        }
        StoresHead(old(Now()), mid, Now(), p, off, old(fpBlock), buf[..k]);
      }
    }

    /** One round of write's loop over whole zones (src/minix3.c:1905-1953). */
    method WriteZone(block: seq<Byte>, ghost p: nat) returns (hung: bool)
      requires InZone(p) && p + 1 < MAX_ZONES && |block| == BLOCK_SIZE
      modifies `zones, `cur, `fpBlock, `n, `zmap, `used, `disk, `view, `fpByte, `filePointer, `totalRead, `size
      ensures hung <==> p + 1 == old(n) && old(FreeZones()) < Needed(old(n))
      ensures !hung ==> InZone(p + 1) && n == if p + 1 == old(n) then old(n) + 1 else old(n)
      ensures !hung ==> FreeZones() == old(FreeZones()) - if p + 1 == old(n) then Needed(old(n)) else 0
      ensures !hung ==> old(Now()).Wrote(Now(), BLOCK_SIZE * p, block)
      ensures !hung ==> totalRead == Unsigned(old(totalRead) + BLOCK_SIZE) && size == Bumped(old(size), totalRead)
      ensures !hung ==> fpByte == 0 && filePointer == fpBlock * BLOCK_SIZE
    {
      hide InZone, Now, FreeZones, Snapshot.Wrote, Snapshot.Put, Snapshot.Spares, Flat, Needed, Unsigned, Bumped;
      fpByte := 0;
      InZoneFacts(p);
      StoreBytes(fpBlock * BLOCK_SIZE, block, p, 0);
      ghost var mid := Now();
      totalRead := Unsigned(totalRead + BLOCK_SIZE);
      size := Bumped(size, totalRead);
      var grew;
      hung, grew := Advance(p);
      if hung { return; }
      WroteCompose(old(Now()), mid, Now(), BLOCK_SIZE * p, block, []);
      assert block + [] == block;
      filePointer := fpBlock * BLOCK_SIZE;
      fpByte := 0;
    }

    /**
      The loop of write (src/minix3.c:1891-1954): whole zones, as long as 1024 bytes are
      left.  The next byte goes to the start of zone q.
     */
    method WriteZones(buf: seq<Byte>, ghost q: nat) returns (hung: bool, k: nat)
      requires InZone(q) && q < n && BLOCK_SIZE * q + |buf| < BLOCK_SIZE * MAX_ZONES
      modifies `zones, `cur, `fpBlock, `n, `zmap, `used, `disk, `view, `fpByte, `filePointer, `totalRead, `size
      ensures hung <==> old(FreeZones()) < NeededUpTo(old(n), q + |buf| / BLOCK_SIZE + 1)
      ensures !hung ==> k == BLOCK_SIZE * (|buf| / BLOCK_SIZE) && InZone(q + |buf| / BLOCK_SIZE)
      ensures !hung ==> old(Now()).Wrote(Now(), BLOCK_SIZE * q, buf[..k])
      ensures !hung ==> n == if old(n) < q + |buf| / BLOCK_SIZE + 1 then q + |buf| / BLOCK_SIZE + 1 else old(n)
      ensures !hung ==> FreeZones() == old(FreeZones()) - NeededUpTo(old(n), n)
      ensures !hung ==> totalRead == if k > 0 then Unsigned(old(totalRead) + k) else old(totalRead)
      ensures !hung ==> Sizes(size, totalRead, |buf| - k, BLOCK_SIZE)
                        == Sizes(old(size), old(totalRead), |buf|, BLOCK_SIZE)
      ensures !hung && k == 0 ==> fpByte == old(fpByte) && filePointer == old(filePointer) && fpBlock == old(fpBlock)
      ensures !hung && k > 0 ==> fpByte == 0 && filePointer == fpBlock * BLOCK_SIZE
    {
      hide InZone, Now, FreeZones, Snapshot.Wrote, Needed, Unsigned, Bumped, Sizes;
      k, hung := 0, false;
      ghost var p := q;
      InZoneFacts(q);
      WroteNothing(BLOCK_SIZE * q);
      assert buf[..0] == [];
      while |buf| - k >= BLOCK_SIZE
        invariant k <= |buf| && !hung && k == BLOCK_SIZE * (p - q) && q <= p
        invariant InZone(p) && old(Now()).Wrote(Now(), BLOCK_SIZE * q, buf[..k])
        invariant n == if old(n) < p + 1 then p + 1 else old(n)
        invariant FreeZones() == old(FreeZones()) - NeededUpTo(old(n), n)
        invariant totalRead == if k > 0 then Unsigned(old(totalRead) + k) else old(totalRead)
        invariant Sizes(size, totalRead, |buf| - k, BLOCK_SIZE)
                  == Sizes(old(size), old(totalRead), |buf|, BLOCK_SIZE)
        invariant k == 0 ==> fpByte == old(fpByte) && filePointer == old(filePointer) && fpBlock == old(fpBlock)
        invariant k > 0 ==> fpByte == 0 && filePointer == fpBlock * BLOCK_SIZE
      {
        ghost var mid := Now();
        WrapTwice(old(totalRead), k, BLOCK_SIZE);
        SizesStep(size, totalRead, |buf| - k);
        hung := WriteZone(buf[k..k + BLOCK_SIZE], p);
        if hung {
          NeededMonotone(old(n), p + 2, q + |buf| / BLOCK_SIZE + 1);
          return;
        }
        WroteCompose(old(Now()), mid, Now(), BLOCK_SIZE * q, buf[..k], buf[k..k + BLOCK_SIZE]);
        assert buf[..k] + buf[k..k + BLOCK_SIZE] == buf[..k + BLOCK_SIZE];
        k := k + BLOCK_SIZE;
        p := p + 1;
      }
    }

    lemma InZoneFacts(p: nat)
      requires InZone(p)
      ensures p < n <= MAX_ZONES && fpBlock == Flat(view, zones, n)[p] && fpBlock > 0
    {
      hide Owned, Synced, Marks, Tree;
      DataIsSomewhere(view, zones, n, p);
    }

    lemma NowIs()
      ensures Now().n == n && Now().view == view && Now().zones == zones
    {
    }

    lemma WroteNothing(at: nat)
      requires n <= MAX_ZONES && at <= BLOCK_SIZE * n
      ensures Now().Wrote(Now(), at, [])
    {
    }

    /** The last part of write (src/minix3.c:1960-1993): fewer than 1024 bytes to the start of zone q. */
    method WriteTail(buf: seq<Byte>, ghost q: nat)
      requires InZone(q) && |buf| < BLOCK_SIZE
      modifies `disk, `view, `fpByte, `filePointer, `totalRead, `size
      ensures InZone(q) && old(Now()).Wrote(Now(), BLOCK_SIZE * q, buf)
      ensures totalRead == if buf == [] then old(totalRead) else Unsigned(old(totalRead) + |buf|)
      ensures size == Sizes(old(size), old(totalRead), |buf|, BLOCK_SIZE)
      ensures fpByte == if buf == [] then old(fpByte) else |buf|
      ensures filePointer == old(filePointer) + |buf|
    {
      hide Now, FreeZones, Snapshot.Wrote, Snapshot.Put, Snapshot.Spares, Flat, InZone, Unsigned, Bumped, Sizes;
      SizesEnd(size, totalRead, |buf|);
      if buf == [] {
        InZoneFacts(q);
        WroteNothing(BLOCK_SIZE * q);
        return;
      }
      InZoneFacts(q);
      StoreBytes(fpBlock * BLOCK_SIZE, buf, q, 0);
      filePointer := filePointer + |buf|;
      fpByte := |buf|;
      totalRead := Unsigned(totalRead + |buf|);
      size := Bumped(size, totalRead);
    }

    /** What write does from the start of zone q on: whole zones, then the rest. */
    method WriteRest(buf: seq<Byte>, ghost q: nat) returns (hung: bool)
      requires InZone(q) && q < n && BLOCK_SIZE * q + |buf| < BLOCK_SIZE * MAX_ZONES
      modifies `zones, `cur, `fpBlock, `n, `zmap, `used, `disk, `view, `fpByte, `filePointer, `totalRead, `size
      ensures hung <==> old(FreeZones()) < NeededUpTo(old(n), q + |buf| / BLOCK_SIZE + 1)
      ensures !hung ==> InZone(q + |buf| / BLOCK_SIZE) && old(Now()).Wrote(Now(), BLOCK_SIZE * q, buf)
      ensures !hung ==> n == if old(n) < q + |buf| / BLOCK_SIZE + 1 then q + |buf| / BLOCK_SIZE + 1 else old(n)
      ensures !hung ==> FreeZones() == old(FreeZones()) - NeededUpTo(old(n), n)
      ensures !hung ==> totalRead == if buf == [] then old(totalRead) else Unsigned(old(totalRead) + |buf|)
      ensures !hung ==> size == Sizes(old(size), old(totalRead), |buf|, BLOCK_SIZE)
      ensures !hung ==> fpByte == if buf == [] then old(fpByte) else |buf| % BLOCK_SIZE
      ensures !hung && |buf| < BLOCK_SIZE ==> fpBlock == old(fpBlock) && filePointer == old(filePointer) + |buf|
      ensures !hung && |buf| >= BLOCK_SIZE ==> filePointer == fpBlock * BLOCK_SIZE + fpByte
    {
      hide Now, FreeZones, Snapshot.Wrote, Needed, NeededUpTo, InZone, Unsigned, Sizes;
      var k;
      hung, k := WriteZones(buf, q);
      if hung { return; }
      ghost var mid := Now();
      WrapTwice(old(totalRead), k, |buf| - k);
      WriteTail(buf[k..], q + |buf| / BLOCK_SIZE);
      WroteCompose(old(Now()), mid, Now(), BLOCK_SIZE * q, buf[..k], buf[k..]);
      assert buf[..k] + buf[k..] == buf;
    }

    /**
      write (src/minix3.c:1792-1995) from offset fpByte of zone p, any offset that lseek,
      read and write leave.  The first part of the bytes goes to that device address.  They
      all land where they should, and touch nothing foreign, if the offset is in the zone or
      the zone before it on the disk is the one before it in the file; LandsWhateverIff says
      that otherwise they do not.  The file grows as needed; the call spins exactly when the
      disk has too few zones.  The position it leaves is right if and only if KeepsPlace held
      before the call.
     */
    method Write(buf: seq<Byte>, ghost p: nat) returns (r: Outcome<int>)
      requires InZone(p) && OffsetOk(fpByte)
      requires BLOCK_SIZE * p + Offset(fpByte) + |buf| < BLOCK_SIZE * MAX_ZONES
      requires Offset(fpByte) + |buf| >= BLOCK_SIZE ==> Now().Spares(fpBlock, Offset(fpByte))
      modifies `zones, `cur, `fpBlock, `n, `zmap, `used, `disk, `view, `fpByte, `filePointer, `totalRead, `size
      ensures buf == [] ==> r == Returns(-1) && unchanged(this)
      ensures buf != [] ==>
                (r == Hangs <==>
                 old(FreeZones()) < NeededUpTo(old(n), Reached(p, Offset(old(fpByte)), |buf|) + 1))
      ensures old(fpBlock) > 0 && p < old(n) <= MAX_ZONES && Offset(old(fpByte)) <= BLOCK_SIZE
      ensures |old(Flat(view, zones, n))| == old(n)
      ensures buf != [] && r.Returns? ==> old(Now()).Stores(Now(), p, Offset(old(fpByte)), old(fpBlock), buf)
      ensures buf != [] && r.Returns? ==>
                var off := Offset(old(fpByte));
                && r.value == |buf|
                && (old(Now().Spares(fpBlock, Offset(fpByte))) ==> InZone(Reached(p, off, |buf|)))
                && n == (if old(n) < Reached(p, off, |buf|) + 1 then Reached(p, off, |buf|) + 1 else old(n))
                && FreeZones() == old(FreeZones()) - NeededUpTo(old(n), n)
      ensures buf != [] && r.Returns? ==>
                var off := Offset(old(fpByte));
                && totalRead == Unsigned(old(totalRead) + |buf|)
                && size == Sizes(old(size), old(totalRead), |buf|,
                                 if off < BLOCK_SIZE then BLOCK_SIZE - off else BLOCK_SIZE)
                && old(Flat(view, zones, n)[p] == fpBlock)
                && Leaves(old(Flat(view, zones, n)), p, off, |buf|, old(filePointer), fpBlock, filePointer, fpByte)
    {
      hide Now, FreeZones, Snapshot.Wrote, Snapshot.Stores, Snapshot.Spares, Needed, NeededUpTo, InZone;
      hide Unsigned, Offset, OffsetOk, Sizes, Reached, Remaining, Leaves, Flat, Slot, CursorAt;
      InZoneFacts(p);
      NowIs();
      ghost var off := Offset(fpByte);
      SignedOffset(fpByte);
      if buf == [] {
        return Returns(-1);
      }
      FlatAt(view, zones, n, p);
      OffsetWords(fpByte, fpBlock, 0);
      var remaining := Remaining(fpByte);
      SizesFirst(size, totalRead, |buf|, remaining);
      ReachedCases(p, off, |buf|);
      var hung, k := WriteHead(buf, p);
      if hung {
        NeededForOne(old(n));
        NeededMonotone(old(n), p + 2, Reached(p, off, |buf|) + 1);
        return Hangs;
      }
      if k < remaining {
        assert buf[..k] == buf;
        PlaceWithin(old(Flat(view, zones, n)), p, off, |buf|, filePointer - k);
        NoneNeeded(old(n), p + 1);
        NoneNeeded(old(n), old(n));
        return Returns(|buf|);
      }
      ghost var mid, z1, fp1, b1 := Now(), fpBlock, filePointer, fpByte;
      ZonesSpent(old(n), p, Reached(p, off, |buf|) + 1, n, old(FreeZones()), FreeZones());
      WrapTwice(old(totalRead), k, |buf| - k);
      hung := WriteRest(buf[k..], p + 1);
      if hung {
        return Hangs;
      }
      assert buf[..k] + buf[k..] == buf;
      StoresMore(old(Now()), mid, Now(), p, off, old(fpBlock), buf[..k], buf[k..]);
      PlaceBehind(old(Flat(view, zones, n)), p, off, |buf|, old(filePointer),
                  z1, fpBlock, fp1, filePointer, b1, fpByte);
      return Returns(|buf|);
    }

    /**
      read and lseek compute the zone of the cursor once more after get_next_zone
      (src/minix3.c:1712-1747, 2053-2085); it is the zone the walk had set.
     */
    method Refetch(ghost p: nat)
      requires InZone(p)
      modifies `fpBlock
      ensures fpBlock == old(fpBlock)
    {
      hide Tree, Owned, Synced, Marks;
      DenseSlots(view, zones, n);
      if cur.z1 == NONE {
        fpBlock := zones[cur.z0];
      } else if cur.z2 == NONE {
        var pointers := ReadPointers(zones[ZONE_INDIR]);
        fpBlock := pointers[cur.z1];
      } else {
        var pointers := ReadPointers(zones[ZONE_DINDIR]);
        pointers := ReadPointers(pointers[cur.z1]);
        fpBlock := pointers[cur.z2];
      }
    }

    /** The device bytes at the position are the file's bytes there, if they lie where the file has them. */
    lemma ReadsFile(p: nat, off: int, len: nat)
      requires InZone(p) && InPlace(Flat(view, zones, n), p, off) && -BLOCK_SIZE < off && off + len <= BLOCK_SIZE
      ensures fpBlock > 0 && 0 <= BLOCK_SIZE * p + off && BLOCK_SIZE * p + off + len <= |Stored()|
      ensures FetchBytes(disk, fpBlock * BLOCK_SIZE + off, len)
              == Stored()[BLOCK_SIZE * p + off..BLOCK_SIZE * p + off + len]
    {
      hide InZone, FetchBytes, Contents, Lands;
      InZoneFacts(p);
      StoredLength();
      if len > 0 {
        LandsIff(Flat(view, zones, n), p, off, len);
        LandedReads(disk, Flat(view, zones, n), fpBlock * BLOCK_SIZE + off, BLOCK_SIZE * p + off, len);
      }
    }

    /** The descriptor stands at the start of or inside zone p, and the device address agrees. */
    ghost predicate Inside(p: nat)
      reads `disk, `view, `zmap, `used, `zones, `n, `cur, `fpBlock, `fpByte, `filePointer
    {
      InZone(p) && fpByte < BLOCK_SIZE && filePointer == fpBlock * BLOCK_SIZE + fpByte
    }

    /**
      What reading on delivers: the device bytes at the position, as many as the zone has left,
      and behind them the file from zone p + 1 on.
     */
    ghost function Ahead(p: nat): seq<Byte>
      requires p < n <= MAX_ZONES && OffsetOk(fpByte)
      reads `disk, `view, `zones, `n, `used, `fpByte, `filePointer
    {
      SignedOffset(fpByte);
      StoredLength();
      FetchBytes(disk, filePointer, BLOCK_SIZE - Offset(fpByte)) + Stored()[BLOCK_SIZE * (p + 1)..]
    }

    /** If the device address agrees and the bytes lie in place, that is the file from the position on. */
    lemma AheadInPlace(p: nat)
      requires InZone(p) && OffsetOk(fpByte) && InPlace(Flat(view, zones, n), p, Offset(fpByte))
      requires filePointer == fpBlock * BLOCK_SIZE + Offset(fpByte)
      ensures p < n <= MAX_ZONES && 0 <= BLOCK_SIZE * p + Offset(fpByte) <= |Stored()|
      ensures Ahead(p) == Stored()[BLOCK_SIZE * p + Offset(fpByte)..]
    {
      hide InZone, Stored, InPlace, FetchBytes, Offset;
      InZoneFacts(p);
      SignedOffset(fpByte);
      StoredLength();
      ReadsFile(p, Offset(fpByte), BLOCK_SIZE - Offset(fpByte));
      SlicesJoin(Stored(), BLOCK_SIZE * p + Offset(fpByte), BLOCK_SIZE * (p + 1), |Stored()|);
    }

    lemma AheadInside(p: nat)
      requires Inside(p)
      ensures OffsetOk(fpByte) && p < n <= MAX_ZONES && BLOCK_SIZE * p + fpByte <= |Stored()|
      ensures Ahead(p) == Stored()[BLOCK_SIZE * p + fpByte..]
    {
      hide InZone, Stored, InPlace, FetchBytes, Ahead;
      InsideFacts(p);
      AheadInPlace(p);
    }

    /**
      One round of read's loop (src/minix3.c:1668-1784): at most what is left in the zone,
      from the device address the position names.  With an offset before the zone more than
      1024 bytes can be left; they overrun the buffer of 1024 bytes, and the model stops.
     */
    method ReadSome(want: nat, ghost p: nat) returns (hung: bool, overrun: bool, data: seq<Byte>, ghost q: nat)
      requires InZone(p) && OffsetOk(fpByte) && want > 0
      modifies `cur, `fpBlock, `fpByte, `filePointer
      ensures p < n <= MAX_ZONES
      ensures overrun <==> Offset(old(fpByte)) < 0 && want > BLOCK_SIZE
      ensures !overrun ==> var left := BLOCK_SIZE - Offset(old(fpByte));
                           && |data| == (if want > left then left else want)
                           && (hung <==> |data| == left && p + 1 == n)
      ensures !overrun && !hung ==>
                && InZone(q) && OffsetOk(fpByte) && q < n && data + Ahead(q) == old(Ahead(p))
                && if Offset(old(fpByte)) + |data| == BLOCK_SIZE
                   then q == p + 1 && fpByte == 0 && filePointer == fpBlock * BLOCK_SIZE
                   else && q == p && Offset(fpByte) == Offset(old(fpByte)) + |data|
                        && filePointer == old(filePointer) + |data| && fpBlock == old(fpBlock)
    {
      hide InZone, FetchBytes, Offset, OffsetOk, Remaining, Unsigned, Inside, Stored, InPlace;
      InZoneFacts(p);
      SignedOffset(fpByte);
      OffsetWords(fpByte, fpBlock, 0);
      StoredLength();
      hung, overrun, q := false, false, p;
      var maxRead := Remaining(fpByte);
      var currRead := if want > maxRead then maxRead else want;
      if currRead > BLOCK_SIZE {
        return false, true, [], p;
      }
      data := FetchBytes(disk, filePointer, currRead);
      FetchSplit(disk, filePointer, currRead, maxRead - currRead);
      if currRead == maxRead {
        var found := DenseNext(p);
        if !found { return true, false, data, p; }
        Refetch(p + 1);
        filePointer := fpBlock * BLOCK_SIZE;
        fpByte := 0;
        q := p + 1;
        WordOffset(0);
        IsInside(q);
        AheadInside(q);
      } else {
        OffsetWords(fpByte, fpBlock, currRead);
        filePointer := filePointer + currRead;
        fpByte := Unsigned(fpByte + currRead);
      }
    }

    /** read's loop (src/minix3.c:1665-1785): the next `limit` bytes of what is ahead. */
    method ReadLoop(limit: nat, ghost p: nat) returns (hung: bool, overrun: bool, data: seq<Byte>, ghost q: nat)
      requires InZone(p) && OffsetOk(fpByte)
      modifies `cur, `fpBlock, `fpByte, `filePointer
      ensures p < n <= MAX_ZONES
      ensures overrun <==> Offset(old(fpByte)) < 0 && limit > BLOCK_SIZE
      ensures !overrun ==>
                (hung <==> limit > 0 && BLOCK_SIZE * p + Offset(old(fpByte)) + limit >= BLOCK_SIZE * n)
      ensures !overrun && !hung ==>
                && InZone(q) && OffsetOk(fpByte) && q < n
                && BLOCK_SIZE * q + Offset(fpByte) == BLOCK_SIZE * p + Offset(old(fpByte)) + limit
                && (limit == 0 || Offset(old(fpByte)) + limit < BLOCK_SIZE ==>
                      q == p && fpBlock == old(fpBlock) && filePointer == old(filePointer) + limit)
                && (limit > 0 && Offset(old(fpByte)) + limit >= BLOCK_SIZE ==> Inside(q))
                && |data| == limit && data + Ahead(q) == old(Ahead(p))
    {
      hide InZone, Stored, FetchBytes, Offset, OffsetOk, InPlace, Inside, Unsigned, Flat, TreeOk, Ahead;
      hung, overrun, data, q := false, false, [], p;
      InZoneFacts(p);
      SignedOffset(fpByte);
      ghost var off, ahead := Offset(fpByte), Ahead(p);
      while |data| < limit
        invariant |data| <= limit && !hung && !overrun && p <= q < n
        invariant InZone(q) && OffsetOk(fpByte) && -BLOCK_SIZE < Offset(fpByte) <= BLOCK_SIZE
        invariant BLOCK_SIZE * q + Offset(fpByte) == BLOCK_SIZE * p + off + |data|
        invariant q == p ==> fpBlock == old(fpBlock) && filePointer == old(filePointer) + |data|
        invariant q == p && data != [] ==> |data| == limit && off + limit < BLOCK_SIZE
        invariant q > p ==> Inside(q) && 0 <= Offset(fpByte) < BLOCK_SIZE && limit > 0
        invariant data + Ahead(q) == ahead
        invariant off < 0 && limit > BLOCK_SIZE ==> q == p && data == []
        decreases limit - |data|, if q == p then 1 else 0
      {
        ghost var was := data;
        if q > p { InsideFacts(q); }
        var more;
        hung, overrun, more, q := ReadSome(limit - |data|, q);
        if hung || overrun { return; }
        data := data + more;
        assert data + Ahead(q) == was + (more + Ahead(q));
        SignedOffset(fpByte);
        ZeroOffset(fpByte);
        if q > p { IsInside(q); }
      }
    }

    lemma InsideFacts(p: nat)
      requires Inside(p)
      ensures Offset(fpByte) == fpByte && OffsetOk(fpByte) && 0 <= fpByte < BLOCK_SIZE && InZone(p)
      ensures p < n <= MAX_ZONES && filePointer == fpBlock * BLOCK_SIZE + fpByte
                && InPlace(Flat(view, zones, n), p, fpByte)
    {
    }

    lemma IsInside(p: nat)
      requires InZone(p) && OffsetOk(fpByte)
      requires filePointer == fpBlock * BLOCK_SIZE + Offset(fpByte) && 0 <= Offset(fpByte) < BLOCK_SIZE
      ensures Inside(p) && fpByte == Offset(fpByte)
    {
    }

    /** How many bytes read sets out to read: size_t arithmetic (src/minix3.c:1658-1660). */
    function ReadLimit(count: UInt64): nat
      reads `totalRead, `size
    {
      if Unsigned(count + totalRead) > size then Unsigned(size - totalRead) else count
    }

    /**
      read (src/minix3.c:1623-1790) from offset fpByte of zone p, any offset that lseek, read
      and write leave: `limit` bytes, counted from the fields size and total_read, which may
      wrap.  The first ones come from the device address in file_pointer, those behind the end
      of the zone from zone p + 1 of the file on.  It spins exactly when they reach the end of
      the file's last zone, and overruns its buffer exactly when it goes on for more than 1024
      bytes from an offset before the zone.  From byte t of the file it delivers the file's
      bytes from t on, up to the size of the file, and spins also when t is behind the size
      (the difference wraps) or count plus t wraps.
     */
    method Read(count: UInt64, ghost p: nat) returns (r: Outcome<seq<Byte>>, overrun: bool, ghost q: nat)
      requires InZone(p) && OffsetOk(fpByte) && size < UINT64
      modifies `cur, `fpBlock, `fpByte, `filePointer, `totalRead
      ensures overrun <==> Offset(old(fpByte)) < 0 && old(ReadLimit(count)) > BLOCK_SIZE
      ensures !overrun ==>
                var limit := old(ReadLimit(count));
                r == Hangs <==> limit > 0 && BLOCK_SIZE * p + Offset(old(fpByte)) + limit >= BLOCK_SIZE * n
      ensures !overrun && r.Returns? ==>
                var off, limit := Offset(old(fpByte)), old(ReadLimit(count));
                && |r.value| == limit && totalRead == Unsigned(old(totalRead) + limit)
                && BLOCK_SIZE * q + Offset(fpByte) == BLOCK_SIZE * p + off + limit
                && InZone(q) && OffsetOk(fpByte) && q < n && r.value + Ahead(q) == old(Ahead(p))
                && (limit == 0 || off + limit < BLOCK_SIZE ==> q == p && filePointer == old(filePointer) + limit)
                && (limit > 0 && off + limit >= BLOCK_SIZE ==> Inside(q))
      ensures p < n <= MAX_ZONES
      ensures old(At(totalRead)) ==>
                var t := old(totalRead);
                && !overrun
                && (t > size || count + t >= 0x1_0000_0000_0000_0000 ==> r == Hangs)
                && (t <= size && count + t < 0x1_0000_0000_0000_0000 ==>
                     var c := if count + t > size then size - t else count;
                     && (r == Hangs <==> c > 0 && t + c >= BLOCK_SIZE * n)
                     && (r.Returns? ==> At(t + c) && t + c <= |Stored()| && r.value == Stored()[t..t + c]))
    {
      hide InZone, Stored, FetchBytes, Offset, OffsetOk, Inside, ReadLimit, Unsigned, At, InPlace, Ahead;
      InZoneFacts(p);
      SignedOffset(fpByte);
      ghost var off, t, was, all := Offset(fpByte), totalRead, At(totalRead), Stored();
      var limit := ReadLimit(count);
      if was {
        LimitIs(count);
        AtFacts(t, p);
        LimitCases(count, t, size);
      }
      var hung, data;
      hung, overrun, data, q := ReadLoop(limit, p);
      if overrun || hung { return Hangs, overrun, q; }
      totalRead := Unsigned(totalRead + |data|);
      if was {
        if off + limit < BLOCK_SIZE { IsInside(q); }
        ReadFrom(all, t, data, q);
      }
      return Returns(data), false, q;
    }

    lemma LimitIs(count: UInt64)
      ensures ReadLimit(count) == if Unsigned(count + totalRead) > size then Unsigned(size - totalRead) else count
    {
    }

    lemma AtFacts(t: nat, p: nat)
      requires At(t) && InZone(p)
      ensures t == totalRead == BLOCK_SIZE * p + Offset(fpByte) && 0 <= Offset(fpByte) < BLOCK_SIZE
      ensures filePointer == fpBlock * BLOCK_SIZE + Offset(fpByte)
      ensures OffsetOk(fpByte) && p < n <= MAX_ZONES && t <= |Stored()| && Ahead(p) == Stored()[t..]
    {
      hide TreeOk, Slot, Ahead, Stored;
      CursorRoundTrip(p);
      CursorRoundTrip(t / BLOCK_SIZE);
      AheadInside(p);
    }

    /** Where read ends up after delivering data from byte t on. */
    lemma ReadFrom(all: seq<Byte>, t: nat, data: seq<Byte>, q: nat)
      requires Inside(q) && OffsetOk(fpByte) && q < n <= MAX_ZONES && t <= |all| && all == Stored()
      requires data + Ahead(q) == all[t..] && BLOCK_SIZE * q + Offset(fpByte) == t + |data|
      requires totalRead == Unsigned(t + |data|)
      ensures At(t + |data|) && t + |data| <= |all| && data == all[t..t + |data|]
    {
      hide InZone, At, Stored, Ahead;
      InsideFacts(q);
      AheadInside(q);
      Delivered(all, t, data, Ahead(q));
      StaysAt(t + |data|, q);
    }

    lemma StaysAt(t: nat, q: nat)
      requires InZone(q) && 0 <= Offset(fpByte) < BLOCK_SIZE && filePointer == fpBlock * BLOCK_SIZE + Offset(fpByte)
      requires t == BLOCK_SIZE * q + Offset(fpByte) && totalRead == Unsigned(t) && OffsetOk(fpByte)
      ensures At(t) && TreeOk()
    {
      hide TreeOk, CursorAt, Slot;
      InZoneFacts(q);
    }

    lemma StoredLength()
      requires n <= MAX_ZONES
      ensures |Stored()| == BLOCK_SIZE * n
    {
    }

    /** lseek's reset to the start of the file (src/minix3.c:2030-2039), the position open sets. */
    method Rewind()
      requires TreeOk()
      modifies `cur, `fpBlock, `fpByte, `filePointer, `totalRead
      ensures At(0)
    {
      hide Tree, Owned, Synced, Marks;
      fpByte := 0;
      fpBlock := zones[0];
      cur := Cursor(0, NONE, NONE, NONE);
      filePointer := fpBlock * BLOCK_SIZE;
      totalRead := 0;
    }

    /** lseek's loop (src/minix3.c:2048-2113): as many zones forward as there are, at most `blocks`. */
    method Forward(blocks: nat) returns (skipped: nat)
      requires InZone(0)
      modifies `cur, `fpBlock
      ensures var i := if blocks < n then blocks else n - 1;
              InZone(i) && skipped == BLOCK_SIZE * i
    {
      hide TreeOk, CursorAt, Slot;
      skipped := 0;
      var i: nat := 0;
      while i < blocks
        invariant i <= blocks && InZone(i) && skipped == BLOCK_SIZE * i
      {
        var found := DenseNext(i);
        if !found { break; }
        Refetch(i + 1);
        skipped := skipped + BLOCK_SIZE;
        i := i + 1;
      }
    }

    /** Where lseek is asked to go, counted from the start of the file (src/minix3.c:2020-2028). */
    function Target(offset: Int64, whence: int): Int64
      reads `totalRead, `size
    {
      if whence == SEEK_CUR then Signed(offset + totalRead)
      else if whence == SEEK_END then Signed(offset + size)
      else offset
    }

    /**
      lseek (src/minix3.c:1997-2123).  It goes to zone target/1024, or to the last zone if the
      file has fewer, and always to offset target%1024 there.  A negative target is never
      refused: the test for it is made on unsigned numbers.  Its quotient then is 0 or beyond
      every file, its remainder wraps, and the position is right only if that is 0.  Any other
      whence clears the in-block offset and keeps the rest, which is right only on a boundary.
     */
    method Lseek(offset: Int64, whence: int) returns (skipped: int)
      requires TreeOk() && (!Whence(whence) ==> totalRead < UINT64)
      modifies `cur, `fpBlock, `fpByte, `filePointer, `totalRead
      ensures Whence(whence) ==>
                var target := old(Target(offset, whence));
                var zone := if Unsigned(TruncatedDiv(target)) < n then Unsigned(TruncatedDiv(target)) else n - 1;
                && InZone(zone) && skipped == BLOCK_SIZE * zone + TruncatedMod(target)
                && OffsetOk(fpByte) && Offset(fpByte) == TruncatedMod(target) && totalRead == Unsigned(skipped)
                && filePointer == fpBlock * BLOCK_SIZE + TruncatedMod(target)
                && (At(totalRead) <==> target >= 0 || target % BLOCK_SIZE == 0)
      ensures Whence(whence) && old(Target(offset, whence)) >= 0 ==>
                var target := old(Target(offset, whence));
                var zone := if target / BLOCK_SIZE < n then target / BLOCK_SIZE else n - 1;
                skipped == BLOCK_SIZE * zone + target % BLOCK_SIZE && At(skipped)
      ensures !Whence(whence) ==>
                && skipped == 0 && cur == old(cur) && fpBlock == old(fpBlock) && totalRead == old(totalRead)
                && fpByte == 0 && filePointer == fpBlock * BLOCK_SIZE
                && (old(At(totalRead)) ==> (At(totalRead) <==> totalRead % BLOCK_SIZE == 0))
    {
      hide InZone, Signed, Unsigned, TruncatedDiv, TruncatedMod, Offset, OffsetOk;
      if Whence(whence) {
        skipped := SeekTo(Target(offset, whence));
      } else {
        PlainWords(totalRead, fpBlock);
        skipped := Settle(0, 0);
      }
    }

    /** lseek with its target known (src/minix3.c:2030-2121). */
    method SeekTo(target: Int64) returns (skipped: int)
      requires TreeOk()
      modifies `cur, `fpBlock, `fpByte, `filePointer, `totalRead
      ensures var zone := if Unsigned(TruncatedDiv(target)) < n then Unsigned(TruncatedDiv(target)) else n - 1;
              && InZone(zone) && skipped == BLOCK_SIZE * zone + TruncatedMod(target)
              && OffsetOk(fpByte) && Offset(fpByte) == TruncatedMod(target) && totalRead == Unsigned(skipped)
              && filePointer == fpBlock * BLOCK_SIZE + TruncatedMod(target)
              && (At(totalRead) <==> target >= 0 || target % BLOCK_SIZE == 0)
      ensures target >= 0 ==>
                var zone := if target / BLOCK_SIZE < n then target / BLOCK_SIZE else n - 1;
                skipped == BLOCK_SIZE * zone + target % BLOCK_SIZE && At(skipped)
    {
      hide InZone, Signed, Unsigned, TruncatedDiv, TruncatedMod, Offset, OffsetOk;
      Rewind();
      var endingBlock, endingByte := Unsigned(TruncatedDiv(target)), Unsigned(TruncatedMod(target));
      ghost var zone := if endingBlock < n then endingBlock else n - 1;
      var walked := Forward(endingBlock);
      InZoneFacts(zone);
      SeekWords(zone, fpBlock, target);
      if target >= 0 { PlainTarget(target); }
      skipped := Settle(endingByte, walked);
      if TruncatedMod(target) >= 0 {
        QuotientRemainder(totalRead, zone, BLOCK_SIZE, TruncatedMod(target));
      }
    }

    /** The end of lseek (src/minix3.c:2115-2121). */
    method Settle(endingByte: nat, walked: nat) returns (skipped: int)
      modifies `fpByte, `filePointer, `totalRead
      ensures filePointer == Unsigned(fpBlock * BLOCK_SIZE + endingByte) && fpByte == endingByte
      ensures totalRead == Unsigned(Unsigned(old(totalRead) + endingByte) + walked)
      ensures skipped == Signed(walked + endingByte)
    {
      filePointer := Unsigned(fpBlock * BLOCK_SIZE + endingByte);
      fpByte := endingByte;
      totalRead := Unsigned(totalRead + endingByte);
      totalRead := Unsigned(totalRead + walked);
      skipped := Signed(walked + endingByte);
    }

    /** The file's bytes up to its size. */
    ghost function Text(): seq<Byte>
      requires n <= MAX_ZONES && size <= BLOCK_SIZE * n
      reads `disk, `view, `zones, `n, `used, `size
    {
      StoredLength();
      Stored()[..size]
    }

    /** What every file has that was created empty and only appended to: one zone more than its whole blocks. */
    ghost predicate Appendable()
      reads this
    {
      TreeOk() && At(size) && n == size / BLOCK_SIZE + 1 <= MAX_ZONES
    }

    /** An append: a write at the end of the file. */
    method Append(buf: seq<Byte>) returns (r: Outcome<int>)
      requires Appendable() && size + |buf| < BLOCK_SIZE * MAX_ZONES
      modifies this
      ensures r.Returns? ==> Appendable() && size == old(size) + |buf| && Text() == old(Text()) + buf
      ensures r.Returns? ==> old(Now()).Wrote(Now(), old(size), buf)
      ensures r.Returns? ==> FreeZones() == old(FreeZones()) - NeededUpTo(old(n), n)
      ensures r == Hangs <==> old(FreeZones()) < NeededUpTo(old(n), (old(size) + |buf|) / BLOCK_SIZE + 1)
    {
      hide TreeOk, CursorAt, Slot, NeededUpTo, Flat, Snapshot.Wrote, Snapshot.Bytes;
      hide FreeZones, At, Inside, InZone, Offset, OffsetOk, Unsigned, Sizes, Snapshot.Put, Snapshot.Spares, InPlace;
      ghost var p, off, total := n - 1, fpByte, size + |buf|;
      NoneNeeded(n, size / BLOCK_SIZE + 1);
      StoredLength();
      AtEnd();
      WroteNothing(size);
      SizesPlain(size, totalRead, |buf|, BLOCK_SIZE - off);
      r := Write(buf, n - 1);
      if buf != [] && r.Returns? {
        StoredLength();
        WroteBytes(old(Now()), Now(), old(size), buf);
        AppendsTo(old(Stored()), Stored(), old(size), buf);
        WordOffset((off + |buf|) % BLOCK_SIZE);
        PlainTotal(total);
        StaysAt(total, Reached(p, off, |buf|));
      }
    }

    /** The end of a file that was only appended to is in its last zone. */
    lemma AtEnd()
      requires Appendable()
      ensures InZone(n - 1) && OffsetOk(fpByte) && Offset(fpByte) == fpByte < BLOCK_SIZE && totalRead == size
      ensures filePointer == fpBlock * BLOCK_SIZE + fpByte && BLOCK_SIZE * (n - 1) + fpByte == size
      ensures InPlace(Flat(view, zones, n), n - 1, fpByte) && Now().Spares(fpBlock, fpByte)
    {
      hide TreeOk, CursorAt, Slot;
    }

    /** A mounted file system, before any file is opened. */
    constructor (disk: Disk, zmap: Bitmap, firstDataZone: U32, numZones: nat)
      requires 0 < numZones <= 8 * |zmap| && firstDataZone + numZones < 0x1_0000_0000 && Taken(zmap, 0)
      ensures FsOk() && this.disk == disk && this.zmap == zmap
      ensures this.firstDataZone == firstDataZone && this.numZones == numZones
      ensures used == UsedZones(zmap, firstDataZone)
    {
      this.disk, this.zmap, this.firstDataZone, this.numZones := disk, zmap, firstDataZone, numZones;
      view := View(disk);
      used := UsedZones(zmap, firstDataZone);
      zones := seq(10, _ => 0);
      n, size, fpBlock, fpByte, filePointer, totalRead := 0, 0, 0, 0, 0, 0;
      cur := Cursor(0, NONE, NONE, NONE);
      new;
      ViewIsSynced(disk);
      UsedZonesMarks(zmap, firstDataZone);
    }

    /** open with O_CREAT on a new name (src/minix3.c:1339-1357, 1484-1508): one zone, no bytes. */
    method OpenNew() returns (r: Outcome<()>)
      requires FsOk()
      modifies this
      ensures r == Hangs <==> old(FreeZones()) == 0
      ensures r.Returns? ==> Appendable() && size == 0 && FreeZones() == old(FreeZones()) - 1
      ensures r.Returns? ==> n == 1 && firstDataZone < zones[0] < firstDataZone + numZones
      ensures r.Returns? ==> disk == old(disk) && zones[0] !in old(used) && used == old(used) + {zones[0]}
      ensures r.Returns? ==> forall z: nat :: firstDataZone <= z < zones[0] ==> z in old(used)
    {
      hide Tree, Owned, Synced, Marks, FreeCount;
      var datazone := FindNextDatazone();
      if datazone == 0 { return Hangs; }
      size := 0;
      zones := seq(10, i => if i == 0 then firstDataZone + datazone else 0);
      n := 1;
      OneZone(view, zones, used);
      Rewind();
      return Returns(());
    }
  }
}
