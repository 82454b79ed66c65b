/**
  Shifts and masks on natural numbers, bit by bit.
 */
module Bits {
  import opened Arithmetic

  function And(a: nat, b: nat): nat {
    if a == 0 || b == 0 then 0 else (if a % 2 == 1 && b % 2 == 1 then 1 else 0) + 2 * And(a / 2, b / 2)
  }

  function Or(a: nat, b: nat): nat
    decreases a + b
  {
    if a == 0 then b else if b == 0 then a else (if a % 2 == 1 || b % 2 == 1 then 1 else 0) + 2 * Or(a / 2, b / 2)
  }

  function Shl(a: nat, n: nat): nat {
    if n == 0 then a else 2 * Shl(a, n - 1)
  }

  function Shr(a: nat, n: nat): nat {
    if n == 0 then a else Shr(a / 2, n - 1)
  }

  function Pow2(n: nat): nat {
    if n == 0 then 1 else 2 * Pow2(n - 1)
  }

  lemma {:induction false} ShiftUp(a: nat, n: nat)
    ensures Shl(a, n) == a * Pow2(n)
  {
    if n > 0 {
      ShiftUp(a, n - 1);
      assert a * Pow2(n) == 2 * (a * Pow2(n - 1));
    }
  }

  lemma {:induction false} ShiftDown(a: nat, n: nat)
    ensures Pow2(n) > 0 && Shr(a, n) == a / Pow2(n)
    decreases n
  {
    PowPositive(n);
    if n > 0 {
      ShiftDown(a / 2, n - 1);
      HalfRemainder(a, Pow2(n - 1));
    }
  }

  lemma {:induction false} PowPositive(n: nat)
    ensures Pow2(n) > 0
  {
    if n > 0 { PowPositive(n - 1); }
  }

  lemma {:induction false} PowAdd(m: nat, n: nat)
    ensures Pow2(m + n) == Pow2(m) * Pow2(n)
  {
    if m > 0 {
      PowAdd(m - 1, n);
      DoubledFactor(Pow2(m - 1), Pow2(n));
    }
  }

  lemma DoubledFactor(a: nat, b: nat)
    ensures 2 * a * b == 2 * (a * b)
  {
  }

  /** x & (2^n - 1) is the remainder. */
  lemma {:induction false} MaskIsRemainder(x: nat, n: nat)
    ensures Pow2(n) > 0 && And(x, Pow2(n) - 1) == x % Pow2(n)
  {
    PowPositive(n);
    if n > 0 {
      PowPositive(n - 1);
      var h := Pow2(n - 1);
      MaskIsRemainder(x / 2, n - 1);
      HalfRemainder(x, h);
      MaskStep(x, h, x / 2 % h);
    }
  }

  lemma MaskStep(x: nat, h: nat, r: nat)
    requires h > 0 && And(x / 2, h - 1) == r
    ensures And(x, 2 * h - 1) == x % 2 + 2 * r
  {
    var m := 2 * h - 1;
    AndUnfold(x, m);
    hide And;
    assert m / 2 == h - 1 && m % 2 == 1;
  }

  lemma AndUnfold(a: nat, b: nat)
    ensures And(a, b) == (if a % 2 == 1 && b % 2 == 1 then 1 else 0) + 2 * And(a / 2, b / 2)
  {
  }

  lemma HalfRemainder(x: nat, h: nat)
    requires h > 0
    ensures x % (2 * h) == x % 2 + 2 * (x / 2 % h)
    ensures x / (2 * h) == x / 2 / h
  {
    var q, r := x / 2 / h, x / 2 % h;
    assert x / 2 == q * h + r;
    assert x == q * (2 * h) + (x % 2 + 2 * r);
    QuotientRemainder(x, q, 2 * h, x % 2 + 2 * r);
  }

  lemma {:induction false} AndAtMost(e: nat, perms: nat)
    ensures And(e, perms) <= perms
    decreases perms
  {
    if perms != 0 && e != 0 { AndAtMost(e / 2, perms / 2); }
  }

  lemma Eighth(h: nat)
    ensures h % 8 == h % 2 + 2 * (h / 2 % 2) + 4 * (h / 2 / 2 % 2)
  {
  }

  /** Disjoint fields: or is plus. */
  lemma {:induction false} OrIsPlus(a: nat, n: nat, b: nat)
    requires b < Pow2(n)
    ensures Or(a * Pow2(n), b) == a * Pow2(n) + b
    decreases n
  {
    OrNothing(a * Pow2(n), b);
    hide Or;
    if n > 0 {
      Doubled(a, n);
      OrIsPlus(a, n - 1, b / 2);
      OrStep(a * Pow2(n - 1), b);
    } else {
      Shifted0(a);
    }
  }

  lemma OrNothing(a: nat, b: nat)
    ensures b == 0 ==> Or(a, b) == a
  {
  }

  lemma Doubled(a: nat, n: nat)
    requires n > 0
    ensures Pow2(n) == 2 * Pow2(n - 1) && a * Pow2(n) == 2 * (a * Pow2(n - 1))
  {
  }

  lemma Shifted0(a: nat)
    ensures a * Pow2(0) == a
  {
  }

  lemma OrStep(y: nat, b: nat)
    requires Or(y, b / 2) == y + b / 2
    ensures Or(2 * y, b) == 2 * y + b
  {
    if y > 0 && b > 0 {
      assert Or(2 * y, b) == b % 2 + 2 * Or(2 * y / 2, b / 2);
    }
  }

  lemma OrOne(e: nat)
    ensures Or(e, 1) == if e % 2 == 1 then e else e + 1
  {
  }

  lemma OrUnfold(a: nat, b: nat)
    ensures Or(a, b) % 2 == (if a % 2 == 1 || b % 2 == 1 then 1 else 0) && Or(a, b) / 2 == Or(a / 2, b / 2)
  {
  }
}
