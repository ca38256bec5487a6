/** Facts about products and remainders. */
module Arithmetic {

  lemma {:induction false} AtLeastOnce(x: nat, m: nat)
    requires x >= 1
    ensures x * m >= m
  {
    if x > 1 {
      AtLeastOnce(x - 1, m);
      assert x * m == (x - 1) * m + m;
    }
  }

  lemma NoLarger(q: nat, r: nat, q': nat, r': nat, m: nat)
    requires r < m && q * m + r == q' * m + r'
    ensures q' <= q
  {
    assert (q' - q) * m == q' * m - q * m;
    if q < q' {
      AtLeastOnce(q' - q, m);
    }
  }

  lemma ModUnique(n: nat, q: nat, r: nat, m: nat)
    requires r < m && n == q * m + r
    ensures n % m == r && n / m == q
  {
    assert n == (n / m) * m + n % m;
    NoLarger(q, r, n / m, n % m, m);
    NoLarger(n / m, n % m, q, r, m);
  }
}
