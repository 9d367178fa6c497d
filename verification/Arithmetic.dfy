/**
 Division with remainder, where the solver needs help with products.
 */
module Arithmetic {

  lemma ProductIsFar(m: nat, d: int)
    ensures d >= 1 ==> m * d >= m
    ensures d <= -1 ==> m * d + m <= 0
  {
  }

  /** A number that is written with quotient and remainder has these. */
  lemma QuotientAndRemainder(n: nat, m: nat, q: nat, r: nat)
    requires n == m * q + r && r < m
    ensures n / m == q && n % m == r
  {
    var d := n / m - q;
    assert n == m * (n / m) + n % m;
    assert m * d == m * (n / m) - m * q;
    ProductIsFar(m, d);
  }
}
