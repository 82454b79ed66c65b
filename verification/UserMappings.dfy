/**
  What the user copies (src/uaccess.c) do in a page that mmu_map has mapped (src/mmu.c:21-73).
 */
module UserMappings {
  import opened Arithmetic
  import opened Options
  import opened PageTable
  import opened MapMeaning
  import opened UserCopy

  /** A page mapped with these flags is for the user to read if bits 1 and 4 are set, to write if 2 and 4 are. */
  lemma MappedForUser(mem: Memory, mem': Memory, root: nat, v: nat, p: nat, level: nat, bits: nat, w: nat)
    requires root != 0 && level < 3 && bits < 1024 && HasRwx(bits) && Maps(mem, mem', root, v, p, level, bits)
    requires SamePage(v, w, level)
    ensures UserMayRead(mem', root, w) <==> bits / 2 % 2 == 1 && bits / 16 % 2 == 1
    ensures UserMayWrite(mem', root, w) <==> bits / 4 % 2 == 1 && bits / 16 % 2 == 1
    ensures Translate(mem', root, w) == Some(PageBase(p, level) + w % PageSize(level))
  {
    hide Maps, HasBits, AccessOk, UserMayRead, UserMayWrite, Translate, SamePage, HasRwx;
    MapsMeans(mem, mem', root, v, p, level, bits, w, 0x12);
    MapsMeans(mem, mem', root, v, p, level, bits, w, 0x14);
    AccessIsUser(mem', root, w);
    PermissionBits(SetValid(bits));
  }

  /** copy_from of bytes of one mapped page: all of them, from the physical page, or none. */
  method CopyFromMapped(m: PhysicalMemory, mem: Memory, mem': Memory, dst: array<Byte>, root: nat,
                        v: nat, p: nat, level: nat, bits: nat, from: nat, size: nat) returns (copied: nat)
    requires root != 0 && level < 3 && bits < 1024 && HasRwx(bits) && Maps(mem, mem', root, v, p, level, bits)
    requires size <= dst.Length && forall w :: from <= w < from + size ==> SamePage(v, w, level)
    modifies dst
    ensures copied == if bits / 2 % 2 == 1 && bits / 16 % 2 == 1 then size else 0
    ensures forall i :: 0 <= i < copied ==> dst[i] == ByteAt(m.ram, PageBase(p, level) + (from + i) % PageSize(level))
  {
    hide Maps, HasRwx, SamePage, UserMayRead, UserMayWrite, Translate, PageBase, LongestPrefix;
    forall w | from <= w < from + size
      ensures UserMayRead(mem', root, w) <==> bits / 2 % 2 == 1 && bits / 16 % 2 == 1
      ensures Translate(mem', root, w) == Some(PageBase(p, level) + w % PageSize(level))
    {
      MappedForUser(mem, mem', root, v, p, level, bits, w);
    }
    copied := m.CopyFrom(mem', dst, root, from, size);
    assert copied > 0 ==> UserMayRead(mem', root, from);
  }

  /** copy_to the same way: all bytes are stored, or nothing changes. */
  method CopyToMapped(m: PhysicalMemory, mem: Memory, mem': Memory, root: nat,
                      v: nat, p: nat, level: nat, bits: nat, to: nat, src: seq<Byte>) returns (copied: nat)
    requires root != 0 && level < 3 && bits < 1024 && HasRwx(bits) && Maps(mem, mem', root, v, p, level, bits)
    requires forall w :: to <= w < to + |src| ==> SamePage(v, w, level)
    modifies m
    ensures copied == if bits / 4 % 2 == 1 && bits / 16 % 2 == 1 then |src| else 0
    ensures copied == 0 ==> m.ram == old(m.ram)
    ensures m.ram == StoredBytes(mem', root, old(m.ram), to, src[..copied])
  {
    hide Maps, HasRwx, SamePage, UserMayRead, UserMayWrite, Translate, PageBase, LongestPrefix, StoredBytes;
    forall w | to <= w < to + |src|
      ensures UserMayWrite(mem', root, w) <==> bits / 4 % 2 == 1 && bits / 16 % 2 == 1
    {
      MappedForUser(mem, mem', root, v, p, level, bits, w);
    }
    StoredNone(mem', root, m.ram, to);
    copied := m.CopyTo(mem', root, to, src);
    assert copied > 0 ==> UserMayWrite(mem', root, to);
    assert copied == 0 ==> src[..copied] == [];
  }
}
