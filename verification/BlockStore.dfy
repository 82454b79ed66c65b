/**
  The block device as the Minix code sees it: an ideal store of 1024-byte zones that
  never fails.  A zone holds raw bytes; an indirect zone is the same bytes read as 256
  little-endian 32-bit zone numbers.
 */
module BlockStore {

  const BLOCK_SIZE := 1024
  const NUM_POINTERS := 256

  type Byte = x: int | 0 <= x < 256
  type U32 = x: int | 0 <= x < 0x1_0000_0000
  type Block = b: seq<Byte> | |b| == BLOCK_SIZE witness seq(BLOCK_SIZE, _ => 0)
  type Pointers = p: seq<U32> | |p| == NUM_POINTERS witness seq(NUM_POINTERS, _ => 0)
  type Disk = map<nat, Block>

  function ZeroBlock(): Block {
    seq(BLOCK_SIZE, _ => 0)
  }

  function NoPointers(): Pointers {
    seq(NUM_POINTERS, _ => 0)
  }

  /** The contents of zone z; a zone never written reads as zeros. */
  function Fetch(disk: Disk, z: nat): Block {
    if z in disk then disk[z] else ZeroBlock()
  }

  /** The i-th 32-bit little-endian word of a block. */
  function Pointer(b: Block, i: nat): (p: U32)
    requires i < NUM_POINTERS
  {
    var b0: int, b1: int, b2: int, b3: int := b[4 * i], b[4 * i + 1], b[4 * i + 2], b[4 * i + 3];
    b0 + 0x100 * b1 + 0x1_0000 * b2 + 0x100_0000 * b3
  }

  function Decode(b: Block): Pointers {
    seq(NUM_POINTERS, i requires 0 <= i < NUM_POINTERS => Pointer(b, i))
  }

  function WordByte(w: U32, k: nat): Byte
    requires k < 4
  {
    match k
    case 0 => w % 0x100
    case 1 => (w / 0x100) % 0x100
    case 2 => (w / 0x1_0000) % 0x100
    case 3 => w / 0x100_0000
  }

  function Encode(p: Pointers): Block {
    seq(BLOCK_SIZE, k requires 0 <= k < BLOCK_SIZE => WordByte(p[k / 4], k % 4))
  }

  lemma WordBytesRebuild(w: U32)
    ensures var b0: int, b1: int, b2: int, b3: int := WordByte(w, 0), WordByte(w, 1), WordByte(w, 2), WordByte(w, 3);
            b0 + 0x100 * b1 + 0x1_0000 * b2 + 0x100_0000 * b3 == w
  {
    assert w / 0x1_0000 == (w / 0x100) / 0x100;
    assert w / 0x100_0000 == (w / 0x1_0000) / 0x100;
  }

  /** A zone number is stored in four bytes, the lowest first. */
  lemma EncodedBytes(p: Pointers, i: nat)
    requires i < 256
    ensures var b: seq<int> := Encode(p);
            && b[4 * i] == p[i] % 256 && b[4 * i + 1] == p[i] / 256 % 256
            && b[4 * i + 2] == p[i] / 65536 % 256 && b[4 * i + 3] == p[i] / 16777216
            && p[i] == b[4 * i] + 256 * b[4 * i + 1] + 65536 * b[4 * i + 2] + 16777216 * b[4 * i + 3]
  {
    WordBytesRebuild(p[i]);
  }

  /** And read from them. */
  lemma DecodedBytes(b: Block, i: nat)
    requires i < 256
    ensures Decode(b)[i] as int == b[4 * i] as int + 256 * b[4 * i + 1] as int + 65536 * b[4 * i + 2] as int
                                   + 16777216 * b[4 * i + 3] as int
  {
  }

  lemma DecodedWord(p: Pointers, i: nat)
    requires i < NUM_POINTERS
    ensures Pointer(Encode(p), i) == p[i]
  {
    hide WordByte;
    var b := Encode(p);
    WordBytesRebuild(p[i]);
    assert b[4 * i] == WordByte(p[i], 0);
    assert b[4 * i + 1] == WordByte(p[i], 1);
    assert b[4 * i + 2] == WordByte(p[i], 2);
    assert b[4 * i + 3] == WordByte(p[i], 3);
  }

  /** An array of zone numbers survives being written to and read back from a zone. */
  lemma DecodeEncode(p: Pointers)
    ensures Decode(Encode(p)) == p
  {
    hide Pointer, Encode;
    forall i | 0 <= i < NUM_POINTERS
      ensures Decode(Encode(p))[i] == p[i]
    {
      DecodedWord(p, i);
    }
  }

  /** The whole store seen as pointer zones. */
  type PointerView = map<nat, Pointers>

  function Row(view: PointerView, z: nat): Pointers {
    if z in view then view[z] else NoPointers()
  }

  /** Zone z read as pointers. */
  function FetchPointers(disk: Disk, z: nat): Pointers {
    Decode(Fetch(disk, z))
  }

  /** view is what the store holds when every zone is read as pointers. */
  ghost predicate Synced(disk: Disk, view: PointerView) {
    forall z: nat {:trigger FetchPointers(disk, z)} :: FetchPointers(disk, z) == Row(view, z)
  }

  ghost function View(disk: Disk): PointerView {
    map z | z in disk :: Decode(disk[z])
  }

  lemma ViewIsSynced(disk: Disk)
    ensures Synced(disk, View(disk))
  {
    assert Decode(ZeroBlock()) == NoPointers();
  }

  lemma SyncedWrite(disk: Disk, view: PointerView, z: nat, b: Block)
    requires Synced(disk, view)
    ensures Synced(disk[z := b], view[z := Decode(b)])
  {
    var disk' := disk[z := b];
    assert forall y: nat {:trigger FetchPointers(disk', y)} :: y != z ==>
        FetchPointers(disk', y) == FetchPointers(disk, y);
  }

  /** Writing an encoded pointer zone changes exactly that row of the view. */
  lemma SyncedPointerWrite(disk: Disk, view: PointerView, z: nat, p: Pointers)
    requires Synced(disk, view)
    ensures Synced(disk[z := Encode(p)], view[z := p])
  {
    SyncedWrite(disk, view, z, Encode(p));
    DecodeEncode(p);
  }

  /** Replaces part of one zone, as block_write_wrapper does for a write inside a zone. */
  function Patch(b: Block, off: nat, data: seq<Byte>): (r: Block)
    requires off + |data| <= BLOCK_SIZE
    ensures forall k :: 0 <= k < BLOCK_SIZE ==>
              r[k] == if off <= k < off + |data| then data[k - off] else b[k]
  {
    b[..off] + data + b[off + |data|..]
  }

  /** The byte at device address a. */
  function ByteAt(disk: Disk, a: nat): Byte {
    Fetch(disk, a / BLOCK_SIZE)[a % BLOCK_SIZE]
  }

  /** len bytes from device address addr on, as block_read_wrapper delivers them. */
  function FetchBytes(disk: Disk, addr: nat, len: nat): (s: seq<Byte>)
    ensures |s| == len
  {
    seq<Byte>(len, k requires 0 <= k < len => ByteAt(disk, addr + k))
  }

  /** data from device address addr on, zone by zone, as block_write_wrapper stores it. */
  function WriteBytes(disk: Disk, addr: nat, data: seq<Byte>): Disk
    decreases |data|
  {
    if data == [] then disk
    else
      var z, off := addr / BLOCK_SIZE, addr % BLOCK_SIZE;
      var k := if |data| < BLOCK_SIZE - off then |data| else BLOCK_SIZE - off;
      WriteBytes(disk[z := Patch(Fetch(disk, z), off, data[..k])], addr + k, data[k..])
  }

  /** A device write changes exactly the bytes of its range. */
  lemma {:induction false} WrittenByte(disk: Disk, addr: nat, data: seq<Byte>, a: nat)
    ensures ByteAt(WriteBytes(disk, addr, data), a) ==
            if addr <= a < addr + |data| then data[a - addr] else ByteAt(disk, a)
    decreases |data|
  {
    hide ByteAt, Fetch;
    if data != [] {
      var z, off := addr / BLOCK_SIZE, addr % BLOCK_SIZE;
      var k := if |data| < BLOCK_SIZE - off then |data| else BLOCK_SIZE - off;
      var disk' := disk[z := Patch(Fetch(disk, z), off, data[..k])];
      PatchedAt(disk, z, off, data[..k], a);
      WrittenByte(disk', addr + k, data[k..], a);
    }
  }

  /** What is written at a device address is read back there. */
  lemma WrittenReadsBack(disk: Disk, addr: nat, data: seq<Byte>)
    ensures FetchBytes(WriteBytes(disk, addr, data), addr, |data|) == data
  {
    hide WriteBytes, ByteAt;
    var s := FetchBytes(WriteBytes(disk, addr, data), addr, |data|);
    forall k | 0 <= k < |data|
      ensures s[k] == data[k]
    {
      WrittenByte(disk, addr, data, addr + k);
    }
  }

  /** A write that stays inside a zone replaces that part of it. */
  lemma WriteInZone(disk: Disk, z: nat, off: nat, data: seq<Byte>)
    requires data != [] && off + |data| <= BLOCK_SIZE
    ensures WriteBytes(disk, z * BLOCK_SIZE + off, data) == disk[z := Patch(Fetch(disk, z), off, data)]
  {
    var addr := z * BLOCK_SIZE + off;
    assert addr / BLOCK_SIZE == z && addr % BLOCK_SIZE == off && data[..|data|] == data;
  }

  lemma PatchedAt(disk: Disk, z: nat, off: nat, data: seq<Byte>, a: nat)
    requires off + |data| <= BLOCK_SIZE
    ensures var addr := z * BLOCK_SIZE + off;
            ByteAt(disk[z := Patch(Fetch(disk, z), off, data)], a) ==
            if addr <= a < addr + |data| then data[a - addr] else ByteAt(disk, a)
  {
  }

  /** Zones outside the range of a device write keep their contents. */
  lemma UntouchedZone(disk: Disk, addr: nat, data: seq<Byte>, z: nat)
    requires (z + 1) * BLOCK_SIZE <= addr || addr + |data| <= z * BLOCK_SIZE
    ensures Fetch(WriteBytes(disk, addr, data), z) == Fetch(disk, z)
  {
    hide WriteBytes, Fetch;
    var disk' := WriteBytes(disk, addr, data);
    forall k | 0 <= k < BLOCK_SIZE
      ensures Fetch(disk', z)[k] == Fetch(disk, z)[k]
    {
      var a := z * BLOCK_SIZE + k;
      WrittenByte(disk, addr, data, a);
      assert a / BLOCK_SIZE == z && a % BLOCK_SIZE == k;
    }
  }
}
