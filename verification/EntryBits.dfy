/**
  The shifts and masks of src/mmu.c, bit by bit, and that the quotients and remainders of
  PageTable are what they compute.
 */
module EntryBits {
  import opened Arithmetic
  import opened Bits
  import opened PageTable

  /** The powers the source shifts by. */
  lemma Powers()
    ensures Pow2(2) == 4 && Pow2(9) == ENTRIES && Pow2(10) == 0x400 && Pow2(12) == PAGE
    ensures Pow2(18) == 0x4_0000 && Pow2(19) == 0x8_0000 && Pow2(21) == MEGA
    ensures Pow2(26) == 0x400_0000 && Pow2(28) == 0x1000_0000 && Pow2(30) == GIGA
  {
    assert Pow2(1) == 2;
    assert Pow2(3) == 8;
    PowAdd(3, 6);
    PowAdd(3, 3);
    PowAdd(9, 1);
    PowAdd(9, 3);
    PowAdd(9, 9);
    PowAdd(9, 10);
    PowAdd(9, 12);
    PowAdd(13, 13);
    PowAdd(12, 1);
    PowAdd(9, 19);
    PowAdd(9, 21);
  }

  /** (e & perms) == perms is the bitwise test of the model. */
  lemma {:induction false} MaskIsHasBits(e: nat, perms: nat)
    ensures And(e, perms) == perms <==> HasBits(e, perms)
    decreases perms
  {
    AndAtMost(e, perms);
    if perms != 0 && e != 0 {
      MaskIsHasBits(e / 2, perms / 2);
      AndAtMost(e / 2, perms / 2);
    } else if perms != 0 {
      NoBits(perms);
    }
  }

  lemma {:induction false} NoBits(perms: nat)
    requires perms != 0
    ensures !HasBits(0, perms)
  {
    if perms % 2 == 0 { NoBits(perms / 2); }
  }

  /** entry & PB_VALID and entry & 0xE. */
  lemma MaskIsFlags(e: nat)
    ensures And(e, 1) != 0 <==> IsValid(e)
    ensures And(e, 0xE) != 0 <==> HasRwx(e)
  {
    var h := e / 2;
    assert And(h / 2 / 2 , 1) == h / 2 / 2 % 2;
    assert And(h / 2, 3) == h / 2 % 2 + 2 * (h / 2 / 2 % 2);
    assert And(h, 7) == h % 2 + 2 * And(h / 2, 3);
    assert And(e, 0xE) == 2 * And(h, 7);
    Eighth(h);
  }

  /** (vaddr >> 12) & 0x1FF and its two siblings. */
  lemma IndexBits(v: nat)
    ensures And(Shr(v, 12), 0x1FF) == Vpn0(v) && And(Shr(v, 21), 0x1FF) == Vpn1(v) && And(Shr(v, 30), 0x1FF) == Vpn2(v)
  {
    Powers();
    ShiftDown(v, 12);
    ShiftDown(v, 21);
    ShiftDown(v, 30);
    MaskIsRemainder(v / PAGE, 9);
    MaskIsRemainder(v / MEGA, 9);
    MaskIsRemainder(v / GIGA, 9);
    hide And, Pow2, Shr;
  }

  /** The page numbers of a physical address ... */
  lemma PageNumberBits(p: nat)
    ensures And(Shr(p, 12), 0x1FF) == Ppn0(p) && And(Shr(p, 21), 0x1FF) == Ppn1(p)
              && And(Shr(p, 30), 0x3FF_FFFF) == Ppn2(p)
  {
    Powers();
    ShiftDown(p, 12);
    ShiftDown(p, 21);
    ShiftDown(p, 30);
    MaskIsRemainder(p / PAGE, 9);
    MaskIsRemainder(p / MEGA, 9);
    MaskIsRemainder(p / GIGA, 26);
    hide And, Pow2, Shr;
  }

  /** ... and of an entry. */
  lemma EntryNumberBits(e: nat)
    ensures And(Shr(e, 10), 0x1FF) == EntryPpn0(e) && And(Shr(e, 19), 0x1FF) == EntryPpn1(e)
              && And(Shr(e, 28), 0x3FF_FFFF) == EntryPpn2(e)
  {
    Powers();
    ShiftDown(e, 10);
    ShiftDown(e, 19);
    ShiftDown(e, 28);
    MaskIsRemainder(e / 0x400, 9);
    MaskIsRemainder(e / 0x8_0000, 9);
    MaskIsRemainder(e / 0x1000_0000, 26);
    hide And, Pow2, Shr;
  }

  /** Both spellings of the table a branch entry names: (e >> 10) << 12 and (e << 2) & ~0xFFF. */
  lemma NextBits(e: nat)
    ensures Shl(Shr(e, 10), 12) == Next(e)
    ensures Shl(e, 2) - And(Shl(e, 2), 0xFFF) == Next(e)
  {
    Powers();
    ShiftDown(e, 10);
    ShiftUp(Shr(e, 10), 12);
    ShiftUp(e, 2);
    MaskIsRemainder(4 * e, 12);
    hide And, Pow2, Shl, Shr;
    LowTwelve(e);
  }

  lemma LowTwelve(e: nat)
    ensures 4 * e - 4 * e % PAGE == e / 0x400 * PAGE
  {
    var q, r := e / 0x400, e % 0x400;
    assert e == 0x400 * q + r;
    QuotientRemainder(4 * e, q, PAGE, 4 * r);
  }

  /** (table >> 2) | PB_VALID. */
  lemma BranchBits(table: nat)
    requires table % PAGE == 0
    ensures Or(Shr(table, 2), 1) == BranchEntry(table)
  {
    Powers();
    var q := table / PAGE;
    ShiftDown(table, 2);
    OrIsPlus(q, 10, 1);
    hide Or, Pow2, Shr;
    assert table / 4 == q * 0x400;
  }

  lemma FieldBits(a: nat, b: nat, c: nat)
    requires b < ENTRIES && c < ENTRIES
    ensures Shl(a, 28) == a * 0x1000_0000
    ensures Or(Shl(a, 28), Shl(b, 19)) == a * 0x1000_0000 + b * 0x8_0000
    ensures Or(Or(Shl(a, 28), Shl(b, 19)), Shl(c, 10)) == a * 0x1000_0000 + b * 0x8_0000 + c * 0x400
  {
    Powers();
    ShiftUp(a, 28);
    ShiftUp(b, 19);
    ShiftUp(c, 10);
    OrIsPlus(a, 28, b * 0x8_0000);
    OrIsPlus(a * ENTRIES + b, 19, c * 0x400);
    hide Or, Pow2, Shl;
  }

  /** The or that builds a leaf entry (src/mmu.c:62-67). */
  lemma LeafBits(p: nat, bits: nat)
    ensures Or(Or(Shl(Ppn2(p), 28), bits), 1) == LeafEntry(p, 2, bits)
    ensures Or(Or(Or(Shl(Ppn2(p), 28), Shl(Ppn1(p), 19)), bits), 1) == LeafEntry(p, 1, bits)
    ensures Or(Or(Or(Or(Shl(Ppn2(p), 28), Shl(Ppn1(p), 19)), Shl(Ppn0(p), 10)), bits), 1) == LeafEntry(p, 0, bits)
  {
    hide Or, Shl, Ppn0, Ppn1, Ppn2, SetValid;
    PartBounds(p);
    var a, b, c := Ppn2(p), Ppn1(p), Ppn0(p);
    FieldBits(a, b, c);
  }

  lemma AddressBits(a: nat, b: nat, c: nat)
    requires b < ENTRIES && c < ENTRIES
    ensures Shl(a, 30) == a * GIGA
    ensures Or(Shl(a, 30), Shl(b, 21)) == (a * ENTRIES + b) * MEGA
    ensures Or(Or(Shl(a, 30), Shl(b, 21)), Shl(c, 12)) == (a * 0x4_0000 + b * ENTRIES + c) * PAGE
  {
    Powers();
    ShiftUp(a, 30);
    ShiftUp(b, 21);
    ShiftUp(c, 12);
    OrIsPlus(a, 30, b * MEGA);
    OrIsPlus(a * ENTRIES + b, 21, c * PAGE);
    hide Or, Pow2, Shl;
  }

  lemma OffsetBits(x: nat, n: nat, v: nat)
    ensures Pow2(n) > 0 && Or(x * Pow2(n), And(v, Pow2(n) - 1)) == x * Pow2(n) + v % Pow2(n)
  {
    hide Or, And;
    MaskIsRemainder(v, n);
    OrIsPlus(x, n, v % Pow2(n));
  }

  /** The or that puts a physical address together (src/mmu.c:122-147). */
  lemma PhysicalBits(e: nat, v: nat)
    ensures Or(Shl(EntryPpn2(e), 30), And(v, 0x3FFF_FFFF)) == Physical(2, e, v)
    ensures Or(Or(Shl(EntryPpn2(e), 30), Shl(EntryPpn1(e), 21)), And(v, 0x1F_FFFF)) == Physical(1, e, v)
    ensures Or(Or(Or(Shl(EntryPpn2(e), 30), Shl(EntryPpn1(e), 21)), Shl(EntryPpn0(e), 12)), And(v, 0xFFF))
              == Physical(0, e, v)
  {
    hide Or, And, Shl, Pow2;
    Powers();
    var a, b, c := EntryPpn2(e), EntryPpn1(e), EntryPpn0(e);
    assert b < ENTRIES && c < ENTRIES;
    hide EntryPpn0, EntryPpn1, EntryPpn2;
    AddressBits(a, b, c);
    OffsetBits(a, 30, v);
    OffsetBits(a * ENTRIES + b, 21, v);
    OffsetBits(a * 0x4_0000 + b * ENTRIES + c, 12, v);
  }
}
