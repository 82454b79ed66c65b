/**
  Rounding, quotients and remainders, shared by the modules that compute with sizes and addresses.
 */
module Arithmetic {

  /** ALIGN_UP_POT (util/include/util.h:45). */
  function RoundUp(x: nat, unit: nat): nat
    requires unit > 0
  {
    (x + unit - 1) / unit * unit
  }

  /** A product with a factor that is not 0 is at least as large as the other factor. */
  lemma Multiples(m: int, d: int)
    requires m > 0
    ensures d >= 1 ==> m * d >= m
    ensures d <= -1 ==> m * d <= -m
  {
  }

  /** The only way to write x as a multiple of m and a smaller rest. */
  lemma QuotientRemainder(x: nat, q: nat, m: nat, r: nat)
    requires m > 0 && r < m && x == q * m + r
    ensures x / m == q && x % m == r
  {
    var d := x / m - q;
    assert x == m * (x / m) + x % m;
    assert m * d == r - x % m;
    Multiples(m, d);
  }

  /** Multiplying keeps the order. */
  lemma Times(a: nat, b: nat, w: nat)
    requires a <= b
    ensures a * w <= b * w
  {
    assert b * w == a * w + (b - a) * w;
  }

  /** Strictly, if the factor is not 0. */
  lemma Scaled(a: nat, b: nat, m: nat)
    requires m > 0 && a < b
    ensures a * m < b * m
  {
    assert b * m == a * m + (b - a) * m;
    Multiples(m, b - a);
  }

  /** A multiple of m stays one when it wraps at a multiple of m. */
  lemma WrapMultiple(d: int, m: nat, n: nat)
    requires m > 0 && n > 0
    ensures m * n > 0 && d * m % (m * n) % m == 0
  {
    Multiples(m, n);
    var q, r := d / n, d % n;
    assert d * m == (q * n + r) * m == q * (m * n) + r * m;
    Scaled(r, n, m);
    SignedQuotient(d * m, q, m * n, r * m);
    QuotientRemainder(r * m, r, m, 0);
  }

  lemma SignedQuotient(x: int, q: int, m: nat, r: nat)
    requires m > 0 && r < m && x == q * m + r
    ensures x % m == r
  {
    var d := x / m - q;
    assert x == m * (x / m) + x % m;
    assert m * d == r - x % m;
    Multiples(m, d);
  }

  /** The low 32 bits as a signed number. */
  function ToInt(x: nat): int {
    var low := x % 0x1_0000_0000;
    if low < 0x8000_0000 then low else low - 0x1_0000_0000
  }
}
