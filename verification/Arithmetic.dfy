/**
  The few facts about division with remainder by a variable divisor that the proofs rest on.
 */
module Arithmetic {



  lemma Euclid(x: int, m: int)
    requires m > 0
    ensures x == m * (x / m) + x % m && 0 <= x % m < m
  {
  }

  lemma Distribute(m: int, a: int, b: int)
    ensures m * a - m * b == m * (a - b)
  {
  }

  lemma SmallMultiple(m: int, k: int)
    requires -m < m * k < m
    ensures k == 0
  {
  }

  // Quotient and remainder are unique.
  lemma UniqueRest(m: int, x: int, q: int, r: int)
    requires m > 0 && x == m * q + r && 0 <= r < m
    ensures x % m == r && x / m == q
  {
    Euclid(x, m);
    Distribute(m, q, x / m);
    SmallMultiple(m, q - x / m);
  }

  lemma AddMultiple(x: int, m: int, q: int)
    requires m > 0
    ensures (x + m * q) % m == x % m
  {
    Euclid(x, m);
    Distribute(m, q, -(x / m));
    UniqueRest(m, x + m * q, q + x / m, x % m);
  }

  lemma Exchange(k: int, p: int, q: int)
    ensures k * (p * q) == (k * p) * q
  {
  }

  // Dividing by 256 and then by p is dividing by 256 * p.
  lemma DivideTwice(x: nat, p: nat)
    requires p >= 1
    ensures x / 256 / p == x / (256 * p)
    ensures x % 256 + 256 * (x / 256 % p) == x % (256 * p)
  {
    var y, q := x / 256, x / 256 / p;
    Euclid(y, p);
    Exchange(256, p, q);
    UniqueRest(256 * p, x, q, 256 * (y % p) + x % 256);
  }
}
