/**
  The zone bitmap (zmap) and the search for a free data zone (src/minix3.c:23-79).
  Bit i of the map stands for zone firstDataZone + i.
 */
module ZoneMap {
  import opened Bits
  import opened ByteBits

  type Bitmap = seq<bv8>

  /** 1 << k for a bit number inside one byte. */
  function Mask(k: nat): bv8
    requires k < 8
  {
    (1 as bv8) << k
  }

  predicate Taken(m: Bitmap, i: nat)
    requires i < 8 * |m|
  {
    m[i / 8] & Mask(i % 8) != 0
  }

  /** Element i is bit i % 8, counted from the lowest, of byte i / 8. */
  lemma TakenIs(m: Bitmap, i: nat)
    requires i < 8 * |m|
    ensures Pow2(i % 8) > 0
    ensures Taken(m, i) <==> m[i / 8] as int / Pow2(i % 8) % 2 == 1
  {
    PowPositive(i % 8);
    BitNumber(m[i / 8], i % 8);
  }

  lemma BitNumber(b: bv8, k: nat)
    requires k < 8 && Pow2(k) > 0
    ensures Bit(b, Mask(k)) == b as int / Pow2(k) % 2
  {
    hide Bit, Mask, Pow2;
    MasksAre();
    SmallPowers();
    ByteDigits(b);
  }

  lemma MasksAre()
    ensures Mask(0) == 1 && Mask(1) == 2 && Mask(2) == 4 && Mask(3) == 8
    ensures Mask(4) == 16 && Mask(5) == 32 && Mask(6) == 64 && Mask(7) == 128
  {
  }

  function Set(m: Bitmap, i: nat): (r: Bitmap)
    requires i < 8 * |m|
    ensures |r| == |m|
  {
    m[i / 8 := m[i / 8] | Mask(i % 8)]
  }

  lemma MasksDisjoint(b: bv8, j: nat, k: nat)
    requires j < 8 && k < 8
    ensures (b | Mask(j)) & Mask(j) != 0
    ensures j != k ==> (b | Mask(j)) & Mask(k) == b & Mask(k)
  {
    assert (b | Mask(j)) & Mask(k) == (b & Mask(k)) | (Mask(j) & Mask(k));
    assert (b | Mask(j)) & Mask(j) == (b & Mask(j)) | Mask(j);
    assert Mask(0) == 1 && Mask(1) == 2 && Mask(2) == 4 && Mask(3) == 8;
    assert Mask(4) == 16 && Mask(5) == 32 && Mask(6) == 64 && Mask(7) == 128;
  }

  /** Setting a bit takes exactly that zone. */
  lemma SetTakesOne(m: Bitmap, i: nat, j: nat)
    requires i < 8 * |m| && j < 8 * |m|
    ensures Taken(Set(m, i), j) <==> j == i || Taken(m, j)
  {
    MasksDisjoint(m[i / 8], i % 8, j % 8);
    if j / 8 == i / 8 && j % 8 == i % 8 {
      assert j == i;
    }
  }

  /** `used` is the set of zones whose bit is set, when bit i stands for zone first + i. */
  ghost predicate Marks(m: Bitmap, first: nat, used: set<nat>) {
    forall i: nat {:trigger Taken(m, i)} :: i < 8 * |m| ==> (Taken(m, i) <==> first + i in used)
  }

  ghost function UsedZones(m: Bitmap, first: nat): set<nat> {
    set i: nat | i < 8 * |m| && Taken(m, i) :: first + i
  }

  lemma UsedZonesMarks(m: Bitmap, first: nat)
    ensures Marks(m, first, UsedZones(m, first))
  {
  }

  lemma SetMarks(m: Bitmap, first: nat, used: set<nat>, i: nat)
    requires i < 8 * |m| && Marks(m, first, used)
    ensures Marks(Set(m, i), first, used + {first + i})
  {
    var r, used' := Set(m, i), used + {first + i};
    forall j: nat {:trigger Taken(r, j)} | j < 8 * |m|
      ensures Taken(r, j) <==> first + j in used'
    {
      SetTakesOne(m, i, j);
      assert Taken(m, j) <==> first + j in used;
    }
  }

  /** How many of the n zones from first on are not used. */
  ghost function FreeCount(used: set<nat>, first: nat, n: nat): nat {
    if n == 0 then 0 else FreeCount(used, first, n - 1) + if first + n - 1 in used then 0 else 1
  }

  lemma {:induction false} FreeCountZero(used: set<nat>, first: nat, n: nat)
    ensures FreeCount(used, first, n) == 0 <==> forall z: nat :: first <= z < first + n ==> z in used
  {
    if n > 0 {
      FreeCountZero(used, first, n - 1);
      assert first + n - 1 in used || first <= first + n - 1 < first + n;
    }
  }

  /** Taking a free zone leaves one fewer. */
  lemma {:induction false} TakingUsesOne(used: set<nat>, first: nat, n: nat, z: nat)
    requires z !in used && first <= z
    ensures FreeCount(used + {z}, first, n) == FreeCount(used, first, n) - if z < first + n then 1 else 0
  {
    if n > 0 {
      TakingUsesOne(used, first, n - 1, z);
    }
  }
}
