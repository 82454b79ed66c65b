/**
  The page allocator's bookkeeping: two bits per page, four pages to a byte
  (src/page.c:17-62).  A page is FREE, TAKEN, or LAST (taken and the end of its chunk).
 */
module PageBits {
  import opened ByteBits

  const PAGE_SIZE := 0x1000

  /** The two bookkeeping bits of one page. */
  type Cell = c: bv8 | c < 4

  const FREE: Cell := 0
  const TAKEN: Cell := 2
  const LAST: Cell := 3

  function Shift(k: nat): bv8
    requires k < 4
  {
    match k
    case 0 => 0
    case 1 => 2
    case 2 => 4
    case 3 => 6
  }

  /** bk_test on one byte: shift the page's bits down and mask them. */
  function Get(b: bv8, k: nat): (c: Cell)
    requires k < 4
  {
    (b >> Shift(k)) & 3
  }

  /** The k-th pair of bits of the byte, counted from the lowest. */
  lemma GetIs(b: bv8, k: nat)
    requires k < 4
    ensures Get(b, k) as int ==
            match k
            case 0 => b as int % 4
            case 1 => b as int / 4 % 4
            case 2 => b as int / 16 % 4
            case 3 => b as int / 64 % 4
  {
    ByteDigits(b);
    GetBits(b);
  }

  lemma GetBits(b: bv8)
    ensures Get(b, 0) as int == Bit(b, 1) + 2 * Bit(b, 2) && Get(b, 1) as int == Bit(b, 4) + 2 * Bit(b, 8)
    ensures Get(b, 2) as int == Bit(b, 16) + 2 * Bit(b, 32) && Get(b, 3) as int == Bit(b, 64) + 2 * Bit(b, 128)
  {
  }

  /** bk_set on one byte: or the bits in. */
  function Or(b: bv8, k: nat, c: Cell): bv8
    requires k < 4
  {
    b | (c << Shift(k))
  }

  /** bk_clear on one byte: mask the bits out. */
  function Mask(b: bv8, k: nat): bv8
    requires k < 4
  {
    b & !((3 as bv8) << Shift(k))
  }

  lemma OrGet(b: bv8, k: nat, c: Cell, j: nat)
    requires k < 4 && j < 4
    ensures Get(Or(b, k, c), j) == if j == k then Get(b, k) | c else Get(b, j)
  {
    if j == k {
      OrGetSame(b, k, c);
    } else {
      OrGetOther(b, k, c, j);
    }
  }

  lemma OrGetSame(b: bv8, k: nat, c: Cell)
    requires k < 4
    ensures Get(Or(b, k, c), k) == Get(b, k) | c
  {
  }

  lemma OrGetOther(b: bv8, k: nat, c: Cell, j: nat)
    requires k < 4 && j < 4 && j != k
    ensures Get(Or(b, k, c), j) == Get(b, j)
  {
  }

  lemma MaskGet(b: bv8, k: nat, j: nat)
    requires k < 4 && j < 4
    ensures Get(Mask(b, k), j) == if j == k then FREE else Get(b, j)
  {
  }

  lemma ByteIsItsCells(a: bv8, b: bv8)
    requires Get(a, 0) == Get(b, 0) && Get(a, 1) == Get(b, 1) && Get(a, 2) == Get(b, 2) && Get(a, 3) == Get(b, 3)
    ensures a == b
  {
  }

  function Cells(book: seq<bv8>): (s: seq<Cell>)
    ensures |s| == 4 * |book|
    ensures forall i :: 0 <= i < |s| ==> s[i] == Get(book[i / 4], i % 4)
  {
    seq(4 * |book|, i requires 0 <= i < 4 * |book| => Get(book[i / 4], i % 4))
  }

  /** The cells say everything about the bytes. */
  lemma CellsDecide(a: seq<bv8>, b: seq<bv8>)
    requires Cells(a) == Cells(b)
    ensures a == b
  {
    assert 4 * |a| == |Cells(a)| == |Cells(b)| == 4 * |b|;
    forall i | 0 <= i < |a|
      ensures a[i] == b[i]
    {
      SameByte(a, b, i);
    }
  }

  lemma SameByte(a: seq<bv8>, b: seq<bv8>, i: nat)
    requires i < |a| && i < |b| && Cells(a) == Cells(b)
    ensures a[i] == b[i]
  {
    hide Get, Cells;
    CellAt(a, i, 0); CellAt(a, i, 1); CellAt(a, i, 2); CellAt(a, i, 3);
    CellAt(b, i, 0); CellAt(b, i, 1); CellAt(b, i, 2); CellAt(b, i, 3);
    ByteIsItsCells(a[i], b[i]);
  }

  lemma CellAt(book: seq<bv8>, i: nat, k: nat)
    requires i < |book| && k < 4
    ensures Cells(book)[4 * i + k] == Get(book[i], k)
  {
    assert (4 * i + k) / 4 == i && (4 * i + k) % 4 == k;
  }

  /** bk_set changes exactly the cell of its page. */
  lemma OrCells(book: seq<bv8>, i: nat, c: Cell)
    requires i < 4 * |book|
    ensures Cells(book[i / 4 := Or(book[i / 4], i % 4, c)]) == Cells(book)[i := Cells(book)[i] | c]
  {
    var book' := book[i / 4 := Or(book[i / 4], i % 4, c)];
    forall j | 0 <= j < 4 * |book|
      ensures Cells(book')[j] == Cells(book)[i := Cells(book)[i] | c][j]
    {
      OrGet(book[i / 4], i % 4, c, j % 4);
    }
  }

  lemma MaskCells(book: seq<bv8>, i: nat)
    requires i < 4 * |book|
    ensures Cells(book[i / 4 := Mask(book[i / 4], i % 4)]) == Cells(book)[i := FREE]
  {
    var book' := book[i / 4 := Mask(book[i / 4], i % 4)];
    forall j | 0 <= j < 4 * |book|
      ensures Cells(book')[j] == Cells(book)[i := FREE][j]
    {
      MaskGet(book[i / 4], i % 4, j % 4);
    }
  }
}
