/**
  The zone tree of one Minix 3 inode: seven direct zones, one single-indirect and one
  double-indirect zone (src/include/minix3.h:46-49).  Data zones are numbered by their
  position in tree order, and a cursor of four indices names a position.
 */
module ZoneTree {
  import opened BlockStore

  const ZONE_INDIR := 7
  const ZONE_DINDIR := 8
  const ZONE_TINDIR := 9
  const FIRST_DOUBLE := ZONE_INDIR + NUM_POINTERS
  const MAX_ZONES := FIRST_DOUBLE + NUM_POINTERS * NUM_POINTERS

  /** The unsigned 32-bit value of -1, an index that is not in use. */
  const NONE: U32 := 0xFFFF_FFFF

  /** The ten zone numbers of an inode; 0 means "no zone". */
  type Zones = z: seq<U32> | |z| == 10 witness seq(10, _ => 0)

  datatype Cursor = Cursor(z0: U32, z1: U32, z2: U32, z3: U32)

  /** C's unsigned 32-bit increment. */
  function Inc(x: U32): U32 {
    if x == NONE then 0 else x + 1
  }

  function CursorAt(p: nat): Cursor
    requires p < MAX_ZONES
  {
    if p < ZONE_INDIR then Cursor(p, NONE, NONE, NONE)
    else if p < FIRST_DOUBLE then Cursor(ZONE_INDIR, p - ZONE_INDIR, NONE, NONE)
    else Cursor(ZONE_DINDIR, (p - FIRST_DOUBLE) / NUM_POINTERS, (p - FIRST_DOUBLE) % NUM_POINTERS, NONE)
  }

  /** Every place a zone number can be stored: a data slot or one of the pointer zones. */
  datatype Node = Data(pos: nat) | Single | Double | Leaf(row: nat) {
    predicate InRange() {
      match this
      case Data(p) => p < MAX_ZONES
      case Leaf(j) => j < NUM_POINTERS
      case _ => true
    }

    /** Is this node occupied in a dense file of n data zones? */
    predicate Live(n: nat) {
      match this
      case Data(p) => p < n
      case Single => ZONE_INDIR < n
      case Double => FIRST_DOUBLE < n
      case Leaf(j) => FIRST_DOUBLE + NUM_POINTERS * j < n
    }
  }

  function LeafZone(view: PointerView, zones: Zones, j: nat): U32
    requires j < NUM_POINTERS
  {
    if zones[ZONE_DINDIR] == 0 then 0 else Row(view, zones[ZONE_DINDIR])[j]
  }

  /** The zone number at position p of the tree, 0 for a hole. */
  function Slot(view: PointerView, zones: Zones, p: nat): U32
    requires p < MAX_ZONES
  {
    if p < ZONE_INDIR then zones[p]
    else if p < FIRST_DOUBLE then
      if zones[ZONE_INDIR] == 0 then 0 else Row(view, zones[ZONE_INDIR])[p - ZONE_INDIR]
    else
      var leaf := LeafZone(view, zones, (p - FIRST_DOUBLE) / NUM_POINTERS);
      if leaf == 0 then 0 else Row(view, leaf)[(p - FIRST_DOUBLE) % NUM_POINTERS]
  }

  /** Seven direct zones, 256 behind zone 7 of the inode, 256 times 256 behind zone 8. */
  lemma SlotIs(view: PointerView, zones: Zones, p: nat)
    requires p < 65799
    ensures MAX_ZONES == 65799
    ensures Slot(view, zones, p) ==
            if p < 7 then zones[p]
            else if p < 263 then (if zones[7] == 0 then 0 else Row(view, zones[7])[p - 7])
            else
              var leaf := if zones[8] == 0 then 0 else Row(view, zones[8])[(p - 263) / 256];
              if leaf == 0 then 0 else Row(view, leaf)[(p - 263) % 256]
    ensures CursorAt(p) ==
            if p < 7 then Cursor(p, 4294967295, 4294967295, 4294967295)
            else if p < 263 then Cursor(7, p - 7, 4294967295, 4294967295)
            else Cursor(8, (p - 263) / 256, (p - 263) % 256, 4294967295)
  {
  }

  function NodeZone(view: PointerView, zones: Zones, x: Node): U32
    requires x.InRange()
  {
    match x
    case Data(p) => Slot(view, zones, p)
    case Single => zones[ZONE_INDIR]
    case Double => zones[ZONE_DINDIR]
    case Leaf(j) => LeafZone(view, zones, j)
  }

  /**
    A dense file of n data zones: exactly the live nodes hold a zone, no two of them the
    same one, and the triple-indirect zone is unused.
   */
  ghost predicate Tree(view: PointerView, zones: Zones, n: nat) {
    && 1 <= n <= MAX_ZONES
    && zones[ZONE_TINDIR] == 0
    && (forall x: Node :: x.InRange() ==> (NodeZone(view, zones, x) != 0 <==> x.Live(n)))
    && (forall x: Node, y: Node :: x.InRange() && y.InRange() && x.Live(n) && y.Live(n) && x != y
          ==> NodeZone(view, zones, x) != NodeZone(view, zones, y))
  }

  /** Does the file hold zone z, for data or for pointers? */
  ghost predicate Holds(view: PointerView, zones: Zones, n: nat, z: nat) {
    exists x: Node :: x.InRange() && x.Live(n) && NodeZone(view, zones, x) == z
  }

  /** Is z one of the live pointer zones? */
  ghost predicate PointerZone(view: PointerView, zones: Zones, n: nat, z: nat) {
    exists x: Node :: !x.Data? && x.InRange() && x.Live(n) && NodeZone(view, zones, x) == z
  }

  /** The data zones of a dense file, in file order. */
  ghost function Flat(view: PointerView, zones: Zones, n: nat): (s: seq<U32>)
    requires n <= MAX_ZONES
    ensures |s| == n && forall p :: 0 <= p < n ==> s[p] == Slot(view, zones, p)
  {
    seq(n, p requires 0 <= p < n => Slot(view, zones, p))
  }
}
