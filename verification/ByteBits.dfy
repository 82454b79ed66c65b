/**
  A byte of a bitmap as a number: the bit with mask 2^k is its k-th binary digit.
 */
module ByteBits {
  import opened Bits

  function Bit(b: bv8, mask: bv8): nat {
    if b & mask != 0 then 1 else 0
  }

  lemma ByteSum(b: bv8)
    ensures b as int == Bit(b, 1) + 2 * Bit(b, 2) + 4 * Bit(b, 4) + 8 * Bit(b, 8)
                        + 16 * Bit(b, 16) + 32 * Bit(b, 32) + 64 * Bit(b, 64) + 128 * Bit(b, 128)
  {
  }

  lemma Digits(x: nat, b0: nat, b1: nat, b2: nat, b3: nat, b4: nat, b5: nat, b6: nat, b7: nat)
    requires b0 < 2 && b1 < 2 && b2 < 2 && b3 < 2 && b4 < 2 && b5 < 2 && b6 < 2 && b7 < 2
    requires x == b0 + 2 * b1 + 4 * b2 + 8 * b3 + 16 * b4 + 32 * b5 + 64 * b6 + 128 * b7
    ensures x % 2 == b0 && x / 2 % 2 == b1 && x / 4 % 2 == b2 && x / 8 % 2 == b3
    ensures x / 16 % 2 == b4 && x / 32 % 2 == b5 && x / 64 % 2 == b6 && x / 128 % 2 == b7
    ensures x % 4 == b0 + 2 * b1 && x / 4 % 4 == b2 + 2 * b3
    ensures x / 16 % 4 == b4 + 2 * b5 && x / 64 % 4 == b6 + 2 * b7
  {
    assert x / 2 == b1 + 2 * b2 + 4 * b3 + 8 * b4 + 16 * b5 + 32 * b6 + 64 * b7;
    assert x / 4 == b2 + 2 * b3 + 4 * b4 + 8 * b5 + 16 * b6 + 32 * b7;
    assert x / 8 == b3 + 2 * b4 + 4 * b5 + 8 * b6 + 16 * b7;
    assert x / 16 == b4 + 2 * b5 + 4 * b6 + 8 * b7;
    assert x / 32 == b5 + 2 * b6 + 4 * b7;
    assert x / 64 == b6 + 2 * b7;
  }

  lemma SmallPowers()
    ensures Pow2(0) == 1 && Pow2(1) == 2 && Pow2(2) == 4 && Pow2(3) == 8
    ensures Pow2(4) == 16 && Pow2(5) == 32 && Pow2(6) == 64 && Pow2(7) == 128
  {
    assert Pow2(4) == 16;
  }

  /** The eight bits, and the four pairs of bits, of a byte as a number. */
  lemma ByteDigits(b: bv8)
    ensures var x: nat := b as int;
            && x % 2 == Bit(b, 1) && x / 2 % 2 == Bit(b, 2) && x / 4 % 2 == Bit(b, 4) && x / 8 % 2 == Bit(b, 8)
            && x / 16 % 2 == Bit(b, 16) && x / 32 % 2 == Bit(b, 32)
            && x / 64 % 2 == Bit(b, 64) && x / 128 % 2 == Bit(b, 128)
            && x % 4 == Bit(b, 1) + 2 * Bit(b, 2) && x / 4 % 4 == Bit(b, 4) + 2 * Bit(b, 8)
            && x / 16 % 4 == Bit(b, 16) + 2 * Bit(b, 32) && x / 64 % 4 == Bit(b, 64) + 2 * Bit(b, 128)
  {
    ByteSum(b);
    Digits(b as int, Bit(b, 1), Bit(b, 2), Bit(b, 4), Bit(b, 8), Bit(b, 16), Bit(b, 32), Bit(b, 64), Bit(b, 128));
  }
}
