/**
  Copying between kernel buffers and user memory page by page (src/uaccess.c), against copying
  one byte at a time.
 */
module UserCopy {
  import opened Arithmetic
  import opened Options
  import opened PageTable
  import BlockStore

  type Byte = BlockStore.Byte

  /** Physical memory outside the page tables. */
  type Ram = map<nat, Byte>

  function ByteAt(ram: Ram, a: nat): Byte {
    if a in ram then ram[a] else 0
  }

  const USER_READ: nat := 0x12
  const USER_WRITE: nat := 0x14

  /** What a byte-at-a-time copy would move: n is as far as every byte is accessible. */
  ghost predicate LongestPrefix(mem: Memory, root: nat, addr: nat, size: nat, perms: nat, n: nat) {
    && n <= size
    && (forall i :: addr <= i < addr + n ==> AccessOk(mem, root, i, perms))
    && (n < size ==> !AccessOk(mem, root, addr + n, perms))
  }

  lemma PrefixUnique(mem: Memory, root: nat, addr: nat, size: nat, perms: nat, n: nat, n': nat)
    requires LongestPrefix(mem, root, addr, size, perms, n) && LongestPrefix(mem, root, addr, size, perms, n')
    ensures n == n'
  {
    hide AccessOk;
  }

  /** v has a leaf, and that one is valid and set for user and read: bits 0, 4 and 1. */
  ghost predicate UserMayRead(mem: Memory, root: nat, v: nat) {
    && root != 0 && Walk(mem, root, v).Hit?
    && var e := Walk(mem, root, v).entry; e % 2 == 1 && e / 2 % 2 == 1 && e / 16 % 2 == 1
  }

  /** The same for user and write: bits 0, 4 and 2. */
  ghost predicate UserMayWrite(mem: Memory, root: nat, v: nat) {
    && root != 0 && Walk(mem, root, v).Hit?
    && var e := Walk(mem, root, v).entry; e % 2 == 1 && e / 4 % 2 == 1 && e / 16 % 2 == 1
  }

  /** What the permission words 0x12 and 0x14 ask of an entry. */
  lemma PermissionBits(e: nat)
    ensures HasBits(e, USER_READ) <==> e / 2 % 2 == 1 && e / 16 % 2 == 1
    ensures HasBits(e, USER_WRITE) <==> e / 4 % 2 == 1 && e / 16 % 2 == 1
  {
    var a, b, c, d := e / 2, e / 2 / 2, e / 2 / 2 / 2, e / 2 / 2 / 2 / 2;
    assert b == e / 4 && d == e / 16;
    assert HasBits(d, 1) <==> d % 2 == 1;
    assert HasBits(c, 2) <==> HasBits(d, 1);
    assert HasBits(b, 4) <==> HasBits(c, 2);
    assert HasBits(b, 5) <==> b % 2 == 1 && HasBits(c, 2);
    assert HasBits(a, 9) <==> a % 2 == 1 && HasBits(b, 4);
    assert HasBits(a, 10) <==> HasBits(b, 5);
  }

  /** A walk ends at a valid entry. */
  lemma HitIsValid(mem: Memory, root: nat, v: nat)
    ensures Walk(mem, root, v).Hit? ==> Walk(mem, root, v).entry % 2 == 1
  {
    hide Vpn0, Vpn1, Vpn2, Next, TableAt, HasRwx;
  }

  lemma AccessIsUser(mem: Memory, root: nat, v: nat)
    ensures AccessOk(mem, root, v, USER_READ) <==> UserMayRead(mem, root, v)
    ensures AccessOk(mem, root, v, USER_WRITE) <==> UserMayWrite(mem, root, v)
  {
    hide Walk, HasBits, Translate, AccessFrom, USER_READ, USER_WRITE;
    HitIsValid(mem, root, v);
    if root != 0 {
      OneWalk(mem, root, v, USER_READ);
      OneWalk(mem, root, v, USER_WRITE);
      if Walk(mem, root, v).Hit? {
        PermissionBits(Walk(mem, root, v).entry);
      }
    }
  }

  lemma AccessesAreUser(mem: Memory, root: nat)
    ensures forall v: nat :: AccessOk(mem, root, v, USER_READ) <==> UserMayRead(mem, root, v)
    ensures forall v: nat :: AccessOk(mem, root, v, USER_WRITE) <==> UserMayWrite(mem, root, v)
  {
    hide AccessOk, UserMayRead, UserMayWrite;
    forall v: nat
      ensures AccessOk(mem, root, v, USER_READ) <==> UserMayRead(mem, root, v)
      ensures AccessOk(mem, root, v, USER_WRITE) <==> UserMayWrite(mem, root, v)
    {
      AccessIsUser(mem, root, v);
    }
  }

  /** b is the byte that virtual address v names. */
  ghost predicate Fetched(mem: Memory, root: nat, ram: Ram, v: nat, b: Byte) {
    Translate(mem, root, v).Some? && b == ByteAt(ram, Translate(mem, root, v).value)
  }

  /** An accessible byte has a physical address. */
  lemma AccessTranslates(mem: Memory, root: nat, v: nat, perms: nat)
    requires AccessOk(mem, root, v, perms)
    ensures Translate(mem, root, v).Some?
  {
    hide Translate, Walk;
    OneWalk(mem, root, v, perms);
  }

  /** No physical address looks like the page-fault value. */
  lemma PhysicalBound(level: nat, e: nat, v: nat)
    requires level < 3
    ensures Physical(level, e, v) < 0x100_0000_0000_0000
  {
    hide EntryPpn0, EntryPpn1, EntryPpn2;
    assert EntryPpn2(e) < 0x400_0000 && EntryPpn1(e) < ENTRIES && EntryPpn0(e) < ENTRIES by { EntryBounds(e); }
  }

  lemma EntryBounds(e: nat)
    ensures EntryPpn2(e) < 0x400_0000 && EntryPpn1(e) < ENTRIES && EntryPpn0(e) < ENTRIES
  {
  }

  /** Addresses of one 4 KiB page have the same indices and consecutive offsets at every level. */
  lemma WithinPage(v: nat, i: nat)
    requires v % PAGE + i < PAGE
    ensures Vpn0(v + i) == Vpn0(v) && Vpn1(v + i) == Vpn1(v) && Vpn2(v + i) == Vpn2(v)
    ensures (v + i) % PAGE == v % PAGE + i
    ensures (v + i) % MEGA == v % MEGA + i
    ensures (v + i) % GIGA == v % GIGA + i
  {
    Decompose(v);
    IndexBounds(v);
    var d, a, b, c, o := v / 0x80_0000_0000, Vpn2(v), Vpn1(v), Vpn0(v), v % PAGE;
    hide Vpn0, Vpn1, Vpn2;
    Offsets(v, d, a, b, c, o);
    Offsets(v + i, d, a, b, c, o + i);
  }

  lemma Offsets(v: nat, d: nat, a: nat, b: nat, c: nat, o: nat)
    requires v == d * 0x80_0000_0000 + a * GIGA + b * MEGA + c * PAGE + o
    requires a < ENTRIES && b < ENTRIES && c < ENTRIES && o < PAGE
    ensures Vpn2(v) == a && Vpn1(v) == b && Vpn0(v) == c
    ensures v % PAGE == o && v % MEGA == c * PAGE + o && v % GIGA == b * MEGA + c * PAGE + o
  {
    Quotients(v, d, a, b, c, o);
    QuotientRemainder(v / GIGA, d, ENTRIES, a);
    QuotientRemainder(v / MEGA, d * ENTRIES + a, ENTRIES, b);
    QuotientRemainder(v / PAGE, d * 0x4_0000 + a * ENTRIES + b, ENTRIES, c);
    assert v - o == v / PAGE * PAGE;
    assert v - (c * PAGE + o) == v / MEGA * MEGA;
    assert v - (b * MEGA + c * PAGE + o) == v / GIGA * GIGA;
  }

  /** Translation and permission run on unchanged to the end of the 4 KiB page, whatever the leaf's level. */
  lemma RestOfPage(mem: Memory, root: nat, v: nat, perms: nat, i: nat)
    requires root != 0 && AccessOk(mem, root, v, perms) && v % PAGE + i < PAGE
    ensures AccessOk(mem, root, v + i, perms)
    ensures Translate(mem, root, v).Some?
    ensures Translate(mem, root, v + i) == Some(Translate(mem, root, v).value + i)
    ensures Translate(mem, root, v).value % PAGE == v % PAGE
  {
    hide Translate, AccessOk, Vpn0, Vpn1, Vpn2, IsValid, HasRwx, HasBits, Next, Physical;
    WithinPage(v, i);
    OneWalk(mem, root, v, perms);
    OneWalk(mem, root, v + i, perms);
    assert Walk(mem, root, v + i) == Walk(mem, root, v);
    var w := Walk(mem, root, v);
    PhysicalStep(w.level, w.entry, v, i);
  }

  lemma PhysicalStep(level: nat, e: nat, v: nat, i: nat)
    requires level < 3 && v % PAGE + i < PAGE
    ensures Physical(level, e, v + i) == Physical(level, e, v) + i
    ensures Physical(level, e, v) % PAGE == v % PAGE
  {
    WithinPage(v, i);
    Decompose(v);
    IndexBounds(v);
    var o, q0, q1 := v % PAGE, Vpn0(v), Vpn1(v);
    Offsets(v, v / 0x80_0000_0000, Vpn2(v), q1, q0, o);
    var a, b, c := EntryPpn2(e), EntryPpn1(e), EntryPpn0(e);
    hide EntryPpn0, EntryPpn1, EntryPpn2, Vpn0, Vpn1, Vpn2;
    match level
    case 0 => QuotientRemainder(Physical(0, e, v), a * 0x4_0000 + b * ENTRIES + c, PAGE, o);
    case 1 => QuotientRemainder(Physical(1, e, v), a * 0x4_0000 + b * ENTRIES + q0, PAGE, o);
    case 2 => QuotientRemainder(Physical(2, e, v), a * 0x4_0000 + q1 * ENTRIES + q0, PAGE, o);
  }

  /** The step of the copy loops: to the end of the physical page, or of the request. */
  function Chunk(phys: nat, left: nat): nat {
    var toEnd := RoundUp(phys + 1, PAGE) - phys;
    if toEnd < left then toEnd else left
  }

  lemma ChunkInPage(phys: nat, left: nat)
    requires left > 0
    ensures 0 < Chunk(phys, left) <= left && phys % PAGE + Chunk(phys, left) <= PAGE
  {
  }

  /** Bytes stored one at a time through the page table; a later byte wins where pages alias. */
  function StoredBytes(mem: Memory, root: nat, ram: Ram, to: nat, src: seq<Byte>): Ram {
    if src == [] then ram
    else
      var last := |src| - 1;
      var before := StoredBytes(mem, root, ram, to, src[..last]);
      match Translate(mem, root, to + last)
      case None => before
      case Some(a) => before[a := src[last]]
  }

  lemma {:induction false} StoredConcat(mem: Memory, root: nat, ram: Ram, to: nat, a: seq<Byte>, b: seq<Byte>)
    ensures StoredBytes(mem, root, ram, to, a + b)
              == StoredBytes(mem, root, StoredBytes(mem, root, ram, to, a), to + |a|, b)
    decreases |b|
  {
    hide Translate;
    if b == [] {
      assert a + b == a;
    } else {
      var last := |b| - 1;
      assert (a + b)[..|a| + last] == a + b[..last];
      StoredConcat(mem, root, ram, to, a, b[..last]);
    }
  }

  /** Consecutive bytes of one page go to consecutive physical addresses. */
  function Block(ram: Ram, a: nat, src: seq<Byte>): Ram {
    if src == [] then ram else Block(ram, a, src[..|src| - 1])[a + |src| - 1 := src[|src| - 1]]
  }

  lemma {:induction false} StoredInPage(mem: Memory, root: nat, ram: Ram, v: nat, src: seq<Byte>)
    requires AccessOk(mem, root, v, USER_WRITE) && v % PAGE + |src| <= PAGE
    ensures Translate(mem, root, v).Some?
    ensures StoredBytes(mem, root, ram, v, src) == Block(ram, Translate(mem, root, v).value, src)
    decreases |src|
  {
    hide Translate, AccessOk;
    NullTable(mem, root, v, USER_WRITE);
    if src == [] {
      AccessTranslates(mem, root, v, USER_WRITE);
    } else {
      RestOfPage(mem, root, v, USER_WRITE, |src| - 1);
      StoredInPage(mem, root, ram, v, src[..|src| - 1]);
    }
  }

  lemma NullTable(mem: Memory, root: nat, v: nat, perms: nat)
    ensures AccessOk(mem, root, v, perms) ==> root != 0
  {
  }

  /** The next chunk lies in the page of v, which is accessible to its end. */
  lemma ChunkAccess(mem: Memory, root: nat, v: nat, perms: nat, left: nat)
    requires AccessOk(mem, root, v, perms) && left > 0
    ensures Translate(mem, root, v).Some?
    ensures var phys := Translate(mem, root, v).value;
            var n := Chunk(phys, left);
            && 0 < n <= left && v % PAGE + n <= PAGE
            && forall w :: v <= w < v + n ==>
                 AccessOk(mem, root, w, perms) && Translate(mem, root, w) == Some(phys + (w - v))
  {
    hide Translate, AccessOk, Chunk;
    NullTable(mem, root, v, perms);
    AccessTranslates(mem, root, v, perms);
    var phys := Translate(mem, root, v).value;
    var n := Chunk(phys, left);
    ChunkInPage(phys, left);
    RestOfPage(mem, root, v, perms, 0);
    forall w | v <= w < v + n
      ensures AccessOk(mem, root, w, perms) && Translate(mem, root, w) == Some(phys + (w - v))
    {
      RestOfPage(mem, root, v, perms, w - v);
    }
  }

  class PhysicalMemory {
    var ram: Ram

    /** memcpy out of physical memory. */
    method Load(dst: array<Byte>, at: nat, phys: nat, n: nat)
      requires at + n <= dst.Length
      modifies dst
      ensures forall i :: at <= i < at + n ==> dst[i] == ByteAt(ram, phys + (i - at))
      ensures forall i :: 0 <= i < dst.Length && !(at <= i < at + n) ==> dst[i] == old(dst[i])
    {
      for k := 0 to n
        invariant forall i :: at <= i < at + k ==> dst[i] == ByteAt(ram, phys + (i - at))
        invariant forall i :: 0 <= i < dst.Length && !(at <= i < at + k) ==> dst[i] == old(dst[i])
      {
        dst[at + k] := ByteAt(ram, phys + k);
      }
    }

    /** memcpy into physical memory. */
    method Store(phys: nat, src: seq<Byte>)
      modifies this
      ensures ram == Block(old(ram), phys, src)
    {
      for k := 0 to |src|
        invariant ram == Block(old(ram), phys, src[..k])
      {
        assert src[..k + 1][..k] == src[..k];
        ram := ram[phys + k := src[k]];
      }
      assert src[..|src|] == src;
    }

    /** copy_from (src/uaccess.c:6-52). */
    method CopyFrom(mem: Memory, dst: array<Byte>, root: nat, from: nat, size: nat) returns (copied: nat)
      requires size <= dst.Length
      modifies dst
      ensures LongestPrefix(mem, root, from, size, USER_READ, copied)
      ensures forall v :: from <= v < from + copied ==> UserMayRead(mem, root, v)
      ensures copied <= size && (copied < size ==> !UserMayRead(mem, root, from + copied))
      ensures forall i :: 0 <= i < copied ==> Fetched(mem, root, ram, from + i, dst[i])
      ensures forall i :: copied <= i < dst.Length ==> dst[i] == old(dst[i])
    {
      hide Translate, AccessOk, Chunk, UserMayRead;
      AccessesAreUser(mem, root);
      copied := 0;
      while copied < size
        invariant copied <= size
        invariant forall w :: from <= w < from + copied ==> AccessOk(mem, root, w, USER_READ)
        invariant forall i :: 0 <= i < copied ==> Fetched(mem, root, ram, from + i, dst[i])
        invariant forall i :: copied <= i < dst.Length ==> dst[i] == old(dst[i])
        decreases size - copied
      {
        var v := from + copied;
        if !AccessOk(mem, root, v, USER_READ) { break; }
        ChunkAccess(mem, root, v, USER_READ, size - copied);
        if Translate(mem, root, v).None? { break; }
        var phys := Translate(mem, root, v).value;
        var n := Chunk(phys, size - copied);
        Load(dst, copied, phys, n);
        forall i | copied <= i < copied + n
          ensures Fetched(mem, root, ram, from + i, dst[i])
        {
          assert Translate(mem, root, from + i) == Some(phys + (from + i - v));
        }
        copied := copied + n;
      }
    }

    /** copy_to (src/uaccess.c:54-87): the chunks store what single bytes would. */
    method CopyTo(mem: Memory, root: nat, to: nat, src: seq<Byte>) returns (copied: nat)
      modifies this
      ensures LongestPrefix(mem, root, to, |src|, USER_WRITE, copied)
      ensures forall v :: to <= v < to + copied ==> UserMayWrite(mem, root, v)
      ensures copied <= |src| && (copied < |src| ==> !UserMayWrite(mem, root, to + copied))
      ensures ram == StoredBytes(mem, root, old(ram), to, src[..copied])
    {
      hide Translate, AccessOk, Chunk, StoredBytes, Block, UserMayWrite;
      AccessesAreUser(mem, root);
      copied := 0;
      StoredNone(mem, root, ram, to);
      while copied < |src|
        invariant copied <= |src|
        invariant forall w :: to <= w < to + copied ==> AccessOk(mem, root, w, USER_WRITE)
        invariant ram == StoredBytes(mem, root, old(ram), to, src[..copied])
        decreases |src| - copied
      {
        var v := to + copied;
        if !AccessOk(mem, root, v, USER_WRITE) { break; }
        ChunkAccess(mem, root, v, USER_WRITE, |src| - copied);
        if Translate(mem, root, v).None? { break; }
        var phys := Translate(mem, root, v).value;
        var n := Chunk(phys, |src| - copied);
        StoredInPage(mem, root, ram, v, src[copied..copied + n]);
        StoredConcat(mem, root, old(ram), to, src[..copied], src[copied..copied + n]);
        assert src[..copied + n] == src[..copied] + src[copied..copied + n];
        Store(phys, src[copied..copied + n]);
        copied := copied + n;
      }
    }
  }

  lemma StoredNone(mem: Memory, root: nat, ram: Ram, to: nat)
    ensures StoredBytes(mem, root, ram, to, []) == ram
  {
  }

  /** A stored byte is read back if no later byte went to the same physical address. */
  lemma {:induction false} StoredReadBack(mem: Memory, root: nat, ram: Ram, to: nat, src: seq<Byte>, i: nat)
    requires i < |src| && Translate(mem, root, to + i).Some?
    requires forall w :: to + i < w < to + |src| ==> Translate(mem, root, w) != Translate(mem, root, to + i)
    ensures Fetched(mem, root, StoredBytes(mem, root, ram, to, src), to + i, src[i])
    decreases |src|
  {
    hide Translate;
    if i < |src| - 1 {
      StoredReadBack(mem, root, ram, to, src[..|src| - 1], i);
    }
  }

  /** Memory that no byte of the range names stays as it was. */
  lemma {:induction false} StoredElsewhere(mem: Memory, root: nat, ram: Ram, to: nat, src: seq<Byte>, a: nat)
    requires forall w :: to <= w < to + |src| ==> Translate(mem, root, w) != Some(a)
    ensures ByteAt(StoredBytes(mem, root, ram, to, src), a) == ByteAt(ram, a)
    decreases |src|
  {
    hide Translate;
    if src != [] {
      StoredElsewhere(mem, root, ram, to, src[..|src| - 1], a);
    }
  }
}
