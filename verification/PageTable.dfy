/**
  Sv39 page tables (src/mmu.c; sections 4.3.2 and 4.4 of the RISC-V Privileged Architecture,
  version 20211203): entries, the three-level walk, and the shape of a table tree.
 */
module PageTable {
  import opened Arithmetic
  import opened Bits
  import opened Options
  import PageBits

  const ENTRIES := 512
  const PAGE := PageBits.PAGE_SIZE
  const MEGA := 0x20_0000
  const GIGA := 0x4000_0000

  /** An entry is a 64-bit word: flags in the low ten bits, the physical page number above. */
  type Table = t: seq<nat> | |t| == ENTRIES witness seq(ENTRIES, _ => 0)
  type Memory = map<nat, Table>

  function ZeroTable(): Table {
    seq(ENTRIES, _ => 0)
  }

  /** The table at a physical address. */
  function TableAt(mem: Memory, a: nat): Table {
    if a in mem then mem[a] else ZeroTable()
  }

  predicate IsValid(e: nat) {
    e % 2 == 1
  }

  /** entry & 0xE: readable, writable or executable. */
  predicate HasRwx(e: nat) {
    (e / 2) % 8 != 0
  }

  predicate IsLeaf(e: nat) {
    IsValid(e) && HasRwx(e)
  }

  predicate IsBranch(e: nat) {
    IsValid(e) && !HasRwx(e)
  }

  /** (entry & perms) == perms, bit by bit. */
  predicate HasBits(e: nat, perms: nat) {
    perms == 0 || ((perms % 2 == 1 ==> e % 2 == 1) && HasBits(e / 2, perms / 2))
  }

  /** The table a branch entry points to: (entry << 2) & ~0xFFF. */
  function Next(e: nat): nat {
    e / 0x400 * PAGE
  }

  function BranchEntry(table: nat): nat {
    table / 4 + 1
  }

  function Vpn0(v: nat): nat { v / PAGE % ENTRIES }
  function Vpn1(v: nat): nat { v / MEGA % ENTRIES }
  function Vpn2(v: nat): nat { v / GIGA % ENTRIES }

  function Ppn0(p: nat): nat { p / PAGE % ENTRIES }
  function Ppn1(p: nat): nat { p / MEGA % ENTRIES }
  function Ppn2(p: nat): nat { p / GIGA % 0x400_0000 }

  function EntryPpn0(e: nat): nat { e / 0x400 % ENTRIES }
  function EntryPpn1(e: nat): nat { e / 0x8_0000 % ENTRIES }
  function EntryPpn2(e: nat): nat { e / 0x1000_0000 % 0x400_0000 }

  function PageSize(level: nat): nat
    requires level < 3
  {
    match level
    case 0 => PAGE
    case 1 => MEGA
    case 2 => GIGA
  }

  function SetValid(bits: nat): nat {
    if bits % 2 == 1 then bits else bits + 1
  }

  /** The page number mmu_map puts into a leaf of the given level, in place (src/mmu.c:62-64). */
  function LeafBase(p: nat, level: nat): nat
    requires level < 3
  {
    Ppn2(p) * 0x1000_0000
    + (if level <= 1 then Ppn1(p) * 0x8_0000 else 0)
    + (if level == 0 then Ppn0(p) * 0x400 else 0)
  }

  /** The entry mmu_map writes: the flags, whatever they are, are or'ed in (src/mmu.c:67). */
  function LeafEntry(p: nat, level: nat, bits: nat): nat
    requires level < 3
  {
    Or(Or(LeafBase(p, level), bits), 1)
  }

  /** The physical address a leaf of the given level gives for v (src/mmu.c:122-147). */
  function Physical(level: nat, e: nat, v: nat): nat
    requires level < 3
  {
    match level
    case 2 => EntryPpn2(e) * GIGA + v % GIGA
    case 1 => EntryPpn2(e) * GIGA + EntryPpn1(e) * MEGA + v % MEGA
    case 0 => EntryPpn2(e) * GIGA + EntryPpn1(e) * MEGA + EntryPpn0(e) * PAGE + v % PAGE
  }

  /** mmu_translate (src/mmu.c:105-149); None is MMU_TRANSLATE_PAGE_FAULT. */
  function Translate(mem: Memory, root: nat, v: nat): Option<nat> {
    if root == 0 then None
    else
      var e2 := TableAt(mem, root)[Vpn2(v)];
      if !IsValid(e2) then None
      else if HasRwx(e2) then Some(Physical(2, e2, v))
      else
        var e1 := TableAt(mem, Next(e2))[Vpn1(v)];
        if !IsValid(e1) then None
        else if HasRwx(e1) then Some(Physical(1, e1, v))
        else
          var e0 := TableAt(mem, Next(e1))[Vpn0(v)];
          if !IsValid(e0) then None
          else if HasRwx(e0) then Some(Physical(0, e0, v))
          else None
  }

  function VpnAt(level: nat, v: nat): (i: nat)
    requires level < 3
    ensures i < ENTRIES
  {
    match level
    case 0 => Vpn0(v)
    case 1 => Vpn1(v)
    case 2 => Vpn2(v)
  }

  /** mmu_access_ok's loop (src/mmu.c:161-178), from the given level down. */
  predicate AccessFrom(mem: Memory, tab: nat, v: nat, perms: nat, level: nat)
    requires level < 3
    decreases level
  {
    var e := TableAt(mem, tab)[VpnAt(level, v)];
    if !IsValid(e) then false
    else if HasRwx(e) then HasBits(e, perms)
    else if level == 0 then false
    else AccessFrom(mem, Next(e), v, perms, level - 1)
  }

  predicate AccessOk(mem: Memory, root: nat, v: nat, perms: nat) {
    root != 0 && AccessFrom(mem, root, v, perms, 2)
  }

  /** The leaf the hardware would use for v. */
  datatype Hit = Miss | Hit(level: nat, entry: nat)

  function Walk(mem: Memory, root: nat, v: nat): (r: Hit)
    ensures r.Hit? ==> r.level < 3
  {
    var e2 := TableAt(mem, root)[Vpn2(v)];
    if !IsValid(e2) then Miss
    else if HasRwx(e2) then Hit(2, e2)
    else
      var e1 := TableAt(mem, Next(e2))[Vpn1(v)];
      if !IsValid(e1) then Miss
      else if HasRwx(e1) then Hit(1, e1)
      else
        var e0 := TableAt(mem, Next(e1))[Vpn0(v)];
        if IsLeaf(e0) then Hit(0, e0) else Miss
  }

  /** mmu_translate and mmu_access_ok look at the same leaf. */
  lemma OneWalk(mem: Memory, root: nat, v: nat, perms: nat)
    requires root != 0
    ensures var w := Walk(mem, root, v);
            && Translate(mem, root, v) == (if w.Hit? then Some(Physical(w.level, w.entry, v)) else None)
            && (AccessOk(mem, root, v, perms) <==> w.Hit? && HasBits(w.entry, perms))
  {
    hide HasBits;
    var e2 := TableAt(mem, root)[Vpn2(v)];
    var e1 := TableAt(mem, Next(e2))[Vpn1(v)];
    var e0 := TableAt(mem, Next(e1))[Vpn0(v)];
    assert AccessFrom(mem, Next(e1), v, perms, 0) <==> IsLeaf(e0) && HasBits(e0, perms);
    assert AccessFrom(mem, Next(e2), v, perms, 1)
      <==> IsValid(e1) && if HasRwx(e1) then HasBits(e1, perms) else AccessFrom(mem, Next(e1), v, perms, 0);
  }

  /** p rounded down to a page of the given level, cut to the 56 bits a physical address has. */
  function PageBase(p: nat, level: nat): nat
    requires level < 3
  {
    (p - p % PageSize(level)) % 0x100_0000_0000_0000
  }

  /** v and w lie in the same virtual page of the given level; only the low 39 bits count. */
  predicate SamePage(v: nat, w: nat, level: nat)
    requires level < 3
  {
    v / PageSize(level) % (0x80_0000_0000 / PageSize(level)) == w / PageSize(level) % (0x80_0000_0000 / PageSize(level))
  }

  /** The same page means the same table indices down to its level. */
  lemma SamePageIndices(v: nat, w: nat, level: nat)
    requires level < 3
    ensures SamePage(v, w, level) <==>
            && Vpn2(v) == Vpn2(w)
            && (level <= 1 ==> Vpn1(v) == Vpn1(w))
            && (level == 0 ==> Vpn0(v) == Vpn0(w))
  {
    SplitIndices(v);
    SplitIndices(w);
    IndexBounds(v);
    IndexBounds(w);
  }

  lemma DivTwice(v: nat)
    ensures v / PAGE / ENTRIES == v / MEGA
    ensures v / MEGA / ENTRIES == v / GIGA
    ensures v / GIGA / ENTRIES == v / 0x80_0000_0000
  {
  }

  /** An address is its three indices, its page offset, and what lies above 39 bits. */
  lemma Decompose(v: nat)
    ensures v == v / 0x80_0000_0000 * 0x80_0000_0000 + Vpn2(v) * GIGA + Vpn1(v) * MEGA + Vpn0(v) * PAGE + v % PAGE
  {
    DivTwice(v);
    var a, b, c := v / PAGE, v / MEGA, v / GIGA;
    assert v == a * PAGE + v % PAGE;
    assert a == b * ENTRIES + Vpn0(v);
    assert b == c * ENTRIES + Vpn1(v);
    assert c == v / 0x80_0000_0000 * ENTRIES + Vpn2(v);
  }

  /** Reading quotients off a decomposed address. */
  lemma Quotients(v: nat, d: nat, i: nat, j: nat, k: nat, o: nat)
    requires v == d * 0x80_0000_0000 + i * GIGA + j * MEGA + k * PAGE + o
    requires i < ENTRIES && j < ENTRIES && k < ENTRIES && o < PAGE
    ensures v / GIGA == d * ENTRIES + i
    ensures v / MEGA == d * 0x4_0000 + i * ENTRIES + j
    ensures v / PAGE == d * 0x800_0000 + i * 0x4_0000 + j * ENTRIES + k
  {
  }

  lemma SplitIndices(v: nat)
    ensures v / MEGA % 0x4_0000 == Vpn2(v) * ENTRIES + Vpn1(v)
    ensures v / PAGE % 0x800_0000 == Vpn2(v) * 0x4_0000 + Vpn1(v) * ENTRIES + Vpn0(v)
  {
    Decompose(v);
    var d, i, j, k := v / 0x80_0000_0000, Vpn2(v), Vpn1(v), Vpn0(v);
    hide Vpn0, Vpn1, Vpn2;
    IndexBounds(v);
    Quotients(v, d, i, j, k, v % PAGE);
    QuotientRemainder(v / MEGA, d, 0x4_0000, i * ENTRIES + j);
    QuotientRemainder(v / PAGE, d, 0x800_0000, i * 0x4_0000 + j * ENTRIES + k);
  }

  lemma IndexBounds(v: nat)
    ensures Vpn0(v) < ENTRIES && Vpn1(v) < ENTRIES && Vpn2(v) < ENTRIES
  {
  }

  /** Reading the fields back from an entry built of them. */
  lemma EntryFields(e: nat, p2: nat, p1: nat, p0: nat, f: nat)
    requires e == p2 * 0x1000_0000 + p1 * 0x8_0000 + p0 * 0x400 + f
    requires p2 < 0x400_0000 && p1 < ENTRIES && p0 < ENTRIES && f < 0x400
    ensures EntryPpn2(e) == p2 && EntryPpn1(e) == p1 && EntryPpn0(e) == p0 && e % 0x400 == f
    ensures e / 0x400 == p2 * 0x4_0000 + p1 * ENTRIES + p0
  {
    assert e / 0x1000_0000 == p2;
    assert e / 0x8_0000 == p2 * ENTRIES + p1;
    assert e / 0x400 == p2 * 0x4_0000 + p1 * ENTRIES + p0;
    QuotientRemainder(e / 0x8_0000, p2, ENTRIES, p1);
    QuotientRemainder(e / 0x400, p2 * ENTRIES + p1, ENTRIES, p0);
  }

  lemma FlagsDecide(e: nat, f: nat, x: nat)
    requires e == x * 0x400 + f && f < 0x400
    ensures IsValid(e) <==> IsValid(f)
    ensures HasRwx(e) <==> HasRwx(f)
  {
    Halves(e, f, x);
    SameEighth(e / 2, f / 2, x);
  }

  lemma Halves(e: nat, f: nat, x: nat)
    requires e == x * 0x400 + f
    ensures e % 2 == f % 2 && e / 2 == x * 0x200 + f / 2
  {
  }

  lemma SameEighth(y: nat, g: nat, x: nat)
    requires y == x * 0x200 + g
    ensures y % 8 == g % 8
  {
  }

  /** x << 10 | bits | PB_VALID. */
  lemma FlagBits(x: nat, bits: nat)
    requires bits < 0x400
    ensures Or(Or(x * 0x400, bits), 1) == x * 0x400 + SetValid(bits)
  {
    PowTen();
    OrIsPlus(x, 10, bits);
    OrOne(x * 0x400 + bits);
    hide Or, Pow2;
    Halves(x * 0x400 + bits, bits, x);
  }

  lemma PowTen()
    ensures Pow2(10) == 0x400
  {
    assert Pow2(4) == 16;
    assert Pow2(7) == 128;
  }

  /** Flags below bit 10 do not touch the page number. */
  lemma LeafSum(p: nat, level: nat, bits: nat)
    requires level < 3 && bits < 0x400
    ensures LeafEntry(p, level, bits) == LeafBase(p, level) + SetValid(bits)
  {
    var x := Ppn2(p) * 0x4_0000 + (if level <= 1 then Ppn1(p) * ENTRIES else 0) + if level == 0 then Ppn0(p) else 0;
    assert LeafBase(p, level) == x * 0x400;
    FlagBits(x, bits);
  }

  /** An or has the flags of both sides. */
  lemma OrFlags(a: nat, b: nat)
    ensures IsValid(Or(a, b)) <==> IsValid(a) || IsValid(b)
    ensures HasRwx(Or(a, b)) <==> HasRwx(a) || HasRwx(b)
  {
    OrUnfold(a, b);
    OrUnfold(a / 2, b / 2);
    OrUnfold(a / 2 / 2, b / 2 / 2);
    OrUnfold(a / 2 / 2 / 2, b / 2 / 2 / 2);
    hide Or;
    Eighth(a / 2);
    Eighth(b / 2);
    Eighth(Or(a, b) / 2);
  }

  /** What mmu_map stores is a leaf, for any flags with one of read, write and execute. */
  lemma LeafIsLeaf(p: nat, level: nat, bits: nat)
    requires level < 3 && HasRwx(bits)
    ensures IsLeaf(LeafEntry(p, level, bits))
  {
    hide Or, HasRwx, IsValid;
    OrFlags(LeafBase(p, level), bits);
    OrFlags(Or(LeafBase(p, level), bits), 1);
    OneIsValid();
  }

  lemma OneIsValid()
    ensures IsValid(1)
  {
  }

  /** What mmu_map stores is a leaf with the fields and flags it was given. */
  lemma LeafFields(p: nat, level: nat, bits: nat)
    requires level < 3 && bits < 0x400 && HasRwx(bits)
    ensures var e := LeafEntry(p, level, bits);
            && IsLeaf(e) && EntryPpn2(e) == Ppn2(p) && e % 0x400 == SetValid(bits)
            && EntryPpn1(e) == (if level <= 1 then Ppn1(p) else 0)
            && EntryPpn0(e) == (if level == 0 then Ppn0(p) else 0)
  {
    LeafSum(p, level, bits);
    PartBounds(p);
    hide LeafEntry, Ppn0, Ppn1, Ppn2;
    var e, f := LeafEntry(p, level, bits), SetValid(bits);
    var p1, p0 := if level <= 1 then Ppn1(p) else 0, if level == 0 then Ppn0(p) else 0;
    assert f / 2 == bits / 2;
    EntryFields(e, Ppn2(p), p1, p0, f);
    FlagsDecide(e, f, Ppn2(p) * 0x4_0000 + p1 * ENTRIES + p0);
  }

  lemma PhysicalParts(p: nat)
    ensures PageBase(p, 2) == Ppn2(p) * GIGA
    ensures PageBase(p, 1) == Ppn2(p) * GIGA + Ppn1(p) * MEGA
    ensures PageBase(p, 0) == Ppn2(p) * GIGA + Ppn1(p) * MEGA + Ppn0(p) * PAGE
  {
    DivTwice(p);
    var a, b, c := p / PAGE, p / MEGA, p / GIGA;
    var d := c / 0x400_0000;
    assert c == d * 0x400_0000 + Ppn2(p);
    assert b == c * ENTRIES + Ppn1(p);
    assert a == b * ENTRIES + Ppn0(p);
    PartBounds(p);
    hide Ppn0, Ppn1, Ppn2;
    assert p - p % GIGA == c * GIGA && p - p % MEGA == b * MEGA && p - p % PAGE == a * PAGE;
    QuotientRemainder(c * GIGA, d, 0x100_0000_0000_0000, Ppn2(p) * GIGA);
    QuotientRemainder(b * MEGA, d, 0x100_0000_0000_0000, Ppn2(p) * GIGA + Ppn1(p) * MEGA);
    QuotientRemainder(a * PAGE, d, 0x100_0000_0000_0000, Ppn2(p) * GIGA + Ppn1(p) * MEGA + Ppn0(p) * PAGE);
  }

  lemma PartBounds(p: nat)
    ensures Ppn0(p) < ENTRIES && Ppn1(p) < ENTRIES && Ppn2(p) < 0x400_0000
  {
  }

  /** A mapped page sends each of its addresses to the physical page base plus the same offset. */
  lemma LeafPhysical(p: nat, level: nat, bits: nat, v: nat)
    requires level < 3 && bits < 0x400 && HasRwx(bits)
    ensures Physical(level, LeafEntry(p, level, bits), v) == PageBase(p, level) + v % PageSize(level)
  {
    LeafFields(p, level, bits);
    PhysicalParts(p);
    hide LeafEntry, PageBase, Ppn0, Ppn1, Ppn2, EntryPpn0, EntryPpn1, EntryPpn2;
  }

  /** Low flag bits do not see the page number above them. */
  lemma {:induction false} LowBits(e: nat, f: nat, x: nat, perms: nat, n: nat)
    requires n <= 10 && e == x * Pow2(n) + f && f < Pow2(n) && perms < Pow2(n)
    ensures HasBits(e, perms) <==> HasBits(f, perms)
    decreases n
  {
    if n > 0 && perms != 0 {
      assert Pow2(n) == 2 * Pow2(n - 1);
      assert x * Pow2(n) == 2 * (x * Pow2(n - 1));
      LowBits(e / 2, f / 2, x, perms / 2, n - 1);
    }
  }

  lemma LeafPerms(p: nat, level: nat, bits: nat, perms: nat)
    requires level < 3 && bits < 0x400 && HasRwx(bits) && perms < 0x400
    ensures HasBits(LeafEntry(p, level, bits), perms) <==> HasBits(SetValid(bits), perms)
  {
    hide LeafEntry;
    var e, f := LeafEntry(p, level, bits), SetValid(bits);
    LeafFields(p, level, bits);
    PowTen();
    LowBits(e, f, e / 0x400, perms, 10);
  }

  /** A branch entry names its table and is no leaf. */
  lemma BranchFields(table: nat)
    requires table % PAGE == 0
    ensures IsBranch(BranchEntry(table)) && Next(BranchEntry(table)) == table
  {
    var q := table / PAGE;
    var e := BranchEntry(table);
    assert table == q * PAGE && e == q * 0x400 + 1;
    FlagsDecide(e, 1, q);
    assert e / 0x400 == q;
  }
}
