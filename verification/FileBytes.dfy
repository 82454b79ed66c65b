/**
  The bytes of a file as its zones hold them, and what writes into single zones do to
  them.  This is the flat byte sequence the zone tree stands for.
 */
module FileBytes {
  import opened BlockStore
  import opened ZoneTree
  import opened ZoneGrowth

  /** All bytes stored in the zones of `flat`, in order. */
  ghost function Contents(disk: Disk, flat: seq<U32>): (s: seq<Byte>)
    ensures |s| == BLOCK_SIZE * |flat|
    ensures forall k :: 0 <= k < |s| ==> s[k] == Fetch(disk, flat[k / BLOCK_SIZE])[k % BLOCK_SIZE]
  {
    seq(BLOCK_SIZE * |flat|, k requires 0 <= k < BLOCK_SIZE * |flat| =>
      Fetch(disk, flat[k / BLOCK_SIZE])[k % BLOCK_SIZE])
  }

  /** after is before with data written at `at`, possibly with more storage behind it. */
  ghost predicate Overwrites(before: seq<Byte>, after: seq<Byte>, at: nat, data: seq<Byte>) {
    && |before| <= |after| && at + |data| <= |after|
    && (forall k :: 0 <= k < |data| ==> after[at + k] == data[k])
    && (forall k :: 0 <= k < |before| && !(at <= k < at + |data|) ==> after[k] == before[k])
  }

  lemma OverwritesCompose(a: seq<Byte>, b: seq<Byte>, c: seq<Byte>, at: nat, d1: seq<Byte>, d2: seq<Byte>)
    requires Overwrites(a, b, at, d1) && Overwrites(b, c, at + |d1|, d2)
    ensures Overwrites(a, c, at, d1 + d2)
  {
    var d := d1 + d2;
    forall k | 0 <= k < |d|
      ensures c[at + k] == d[k]
    {
      if k < |d1| {
        assert b[at + k] == d1[k];
        assert c[at + k] == b[at + k];
      } else {
        assert c[at + |d1| + (k - |d1|)] == d2[k - |d1|];
      }
    }
  }

  /** The device address of byte t of a file. */
  function Address(flat: seq<U32>, t: nat): nat
    requires t < BLOCK_SIZE * |flat|
  {
    flat[t / BLOCK_SIZE] * BLOCK_SIZE + t % BLOCK_SIZE
  }

  lemma ByteAtAddress(disk: Disk, flat: seq<U32>, t: nat)
    requires t < BLOCK_SIZE * |flat|
    ensures Contents(disk, flat)[t] == ByteAt(disk, Address(flat, t))
  {
  }

  /** Different bytes of a file with distinct zones have different addresses. */
  lemma AddressOnce(flat: seq<U32>, t: nat, u: nat)
    requires forall i, j :: 0 <= i < j < |flat| ==> flat[i] != flat[j]
    requires t < BLOCK_SIZE * |flat| && u < BLOCK_SIZE * |flat| && Address(flat, t) == Address(flat, u)
    ensures t == u
  {
    assert flat[t / BLOCK_SIZE] == flat[u / BLOCK_SIZE] && t % BLOCK_SIZE == u % BLOCK_SIZE;
    assert t / BLOCK_SIZE == u / BLOCK_SIZE;
  }

  /** The len device bytes from addr on are the bytes of the file from `at` on. */
  ghost predicate Lands(flat: seq<U32>, addr: nat, at: int, len: nat) {
    && 0 <= at && at + len <= BLOCK_SIZE * |flat|
    && forall t: nat :: at <= t < at + len ==> Address(flat, t) == addr + (t - at)
  }

  /** A device write that lands in the file changes exactly those bytes of it. */
  lemma LandedWrites(disk: Disk, flat: seq<U32>, addr: nat, at: nat, data: seq<Byte>)
    requires Lands(flat, addr, at, |data|)
    requires forall i, j :: 0 <= i < j < |flat| ==> flat[i] != flat[j]
    ensures Overwrites(Contents(disk, flat), Contents(WriteBytes(disk, addr, data), flat), at, data)
  {
    hide WriteBytes, Contents, Address, ByteAt;
    var disk' := WriteBytes(disk, addr, data);
    ContentsLength(disk, flat);
    ContentsLength(disk', flat);
    forall t: nat | t < BLOCK_SIZE * |flat|
      ensures Contents(disk', flat)[t] == if at <= t < at + |data| then data[t - at] else Contents(disk, flat)[t]
    {
      ByteAtAddress(disk, flat, t);
      ByteAtAddress(disk', flat, t);
      WrittenByte(disk, addr, data, Address(flat, t));
      var u := Address(flat, t) - addr + at;
      if at <= u < at + |data| { AddressOnce(flat, t, u); }
    }
  }

  /** A device read from where the file's bytes lie delivers those bytes. */
  lemma LandedReads(disk: Disk, flat: seq<U32>, addr: nat, at: nat, len: nat)
    requires Lands(flat, addr, at, len)
    ensures at + len <= |Contents(disk, flat)| && FetchBytes(disk, addr, len) == Contents(disk, flat)[at..at + len]
  {
    hide Contents, Address, ByteAt;
    ContentsLength(disk, flat);
    var s := FetchBytes(disk, addr, len);
    forall k | 0 <= k < len
      ensures s[k] == Contents(disk, flat)[at + k]
    {
      ByteAtAddress(disk, flat, at + k);
      assert Address(flat, at + k) == addr + k;
    }
  }

  lemma ContentsLength(disk: Disk, flat: seq<U32>)
    ensures |Contents(disk, flat)| == BLOCK_SIZE * |flat|
  {
  }

  /** The bytes from offset off of zone p on lie where the file has them. */
  ghost predicate InPlace(flat: seq<U32>, p: nat, off: int)
    requires p < |flat|
  {
    off >= 0 || (p > 0 && flat[p - 1] as int + 1 == flat[p] as int)
  }

  /**
    The offset in zone p may be negative.  Then the bytes land in the file exactly when the
    zone before it in the file is also the zone before it on the disk.
   */
  lemma LandsIff(flat: seq<U32>, p: nat, off: int, len: nat)
    requires p < |flat| && -BLOCK_SIZE < off && 0 < len <= BLOCK_SIZE - off && flat[p] > 0
    ensures Lands(flat, flat[p] * BLOCK_SIZE + off, BLOCK_SIZE * p + off, len) <==> InPlace(flat, p, off)
  {
    hide Address;
    var addr, at := flat[p] * BLOCK_SIZE + off, BLOCK_SIZE * p + off;
    if InPlace(flat, p, off) {
      forall t: nat | at <= t < at + len
        ensures Address(flat, t) == addr + (t - at)
      {
        if t >= BLOCK_SIZE * p {
          AddressIn(flat, p, t - BLOCK_SIZE * p);
        } else {
          AddressIn(flat, p - 1, t - BLOCK_SIZE * (p - 1));
        }
      }
    } else if p > 0 {
      AddressIn(flat, p - 1, BLOCK_SIZE + off);
    }
  }

  lemma AddressIn(flat: seq<U32>, p: nat, k: nat)
    requires p < |flat| && k < BLOCK_SIZE
    ensures BLOCK_SIZE * p + k < BLOCK_SIZE * |flat|
    ensures Address(flat, BLOCK_SIZE * p + k) == flat[p] * BLOCK_SIZE + k
  {
    assert (BLOCK_SIZE * p + k) / BLOCK_SIZE == p && (BLOCK_SIZE * p + k) % BLOCK_SIZE == k;
  }

  /** The bytes of a file depend on its own zones only. */
  lemma SameZones(disk: Disk, disk': Disk, flat: seq<U32>)
    requires forall i :: 0 <= i < |flat| ==> Fetch(disk', flat[i]) == Fetch(disk, flat[i])
    ensures Contents(disk', flat) == Contents(disk, flat)
  {
    hide Fetch;
  }

  /** Growing a file leaves the bytes it had. */
  lemma ExtendContents(disk: Disk, disk': Disk, flat: seq<U32>, d: U32, at: nat)
    requires at <= BLOCK_SIZE * |flat|
    requires forall i :: 0 <= i < |flat| ==> Fetch(disk', flat[i]) == Fetch(disk, flat[i])
    ensures Overwrites(Contents(disk, flat), Contents(disk', flat + [d]), at, [])
  {
  }

  /** Whatever changes on the disk, the file's tree stays if its pointer zones keep their rows. */
  lemma PointersKeepTree(view: PointerView, view': PointerView, zones: Zones, n: nat)
    requires Tree(view, zones, n)
    requires forall z: nat :: PointerZone(view, zones, n, z) ==> Row(view', z) == Row(view, z)
    ensures forall x: Node :: x.InRange() ==> NodeZone(view', zones, x) == NodeZone(view, zones, x)
    ensures Tree(view', zones, n) && Flat(view', zones, n) == Flat(view, zones, n)
  {
    hide Row;
    assert NodeZone(view, zones, Single) == zones[ZONE_INDIR];
    assert NodeZone(view, zones, Double) == zones[ZONE_DINDIR];
    forall j: nat | j < NUM_POINTERS
      ensures LeafZone(view', zones, j) == LeafZone(view, zones, j)
    {
    }
    forall x: Node | x.InRange()
      ensures NodeZone(view', zones, x) == NodeZone(view, zones, x)
    {
      if x.Data? && FIRST_DOUBLE <= x.pos {
        var leaf := Leaf((x.pos - FIRST_DOUBLE) / NUM_POINTERS);
        assert NodeZone(view, zones, leaf) == LeafZone(view, zones, leaf.row);
      }
    }
    forall q | 0 <= q < n
      ensures Slot(view', zones, q) == Slot(view, zones, q)
    {
      assert NodeZone(view', zones, Data(q)) == NodeZone(view, zones, Data(q));
    }
  }

  lemma FlatDistinct(view: PointerView, zones: Zones, n: nat)
    requires Tree(view, zones, n)
    ensures forall i, j :: 0 <= i < j < n ==> Flat(view, zones, n)[i] != Flat(view, zones, n)[j]
  {
    forall i, j | 0 <= i < j < n
      ensures Flat(view, zones, n)[i] != Flat(view, zones, n)[j]
    {
      assert NodeZone(view, zones, Data(i)) != NodeZone(view, zones, Data(j));
    }
  }

  /** The data zones of a file are none of its pointer zones. */
  lemma DataIsNotPointer(view: PointerView, zones: Zones, n: nat, p: nat)
    requires Tree(view, zones, n) && p < n
    ensures !PointerZone(view, zones, n, Slot(view, zones, p))
  {
    assert NodeZone(view, zones, Data(p)) == Slot(view, zones, p);
  }

  /** How many zones it takes to grow a file from `lo` to `hi` data zones. */
  function NeededUpTo(lo: nat, hi: nat): nat
    decreases hi
  {
    if hi <= lo then 0 else NeededUpTo(lo, hi - 1) + Needed(hi - 1)
  }

  lemma {:induction false} NeededMonotone(lo: nat, mid: nat, hi: nat)
    requires mid <= hi
    ensures NeededUpTo(lo, mid) <= NeededUpTo(lo, hi)
  {
    if mid < hi {
      NeededMonotone(lo, mid, hi - 1);
    }
  }

  lemma {:induction false} NeededSplit(lo: nat, mid: nat, hi: nat)
    requires lo <= mid <= hi
    ensures NeededUpTo(lo, hi) == NeededUpTo(lo, mid) + NeededUpTo(mid, hi)
  {
    if mid < hi {
      NeededSplit(lo, mid, hi - 1);
    }
  }
}
