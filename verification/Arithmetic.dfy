/** Division facts that the solver needs spelled out. */
module Arithmetic {

  lemma CancelLess(a: int, b: int, n: nat)
    requires a * n < b * n
    ensures a < b
  {
    assert a >= b ==> a * n >= b * n;
  }

  /** Quotient and remainder are determined by the remainder's range. */
  lemma DivisionUnique(x: nat, n: nat, q: nat, r: nat)
    requires x == q * n + r && r < n
    ensures x / n == q && x % n == r
  {
    var k := x / n;
    assert x == k * n + x % n;
    assert (q + 1) * n == q * n + n && (k + 1) * n == k * n + n;
    CancelLess(k, q + 1, n);
    CancelLess(q, k + 1, n);
  }

  /** Dividing twice is dividing by the product. */
  lemma DivideTwice(x: nat, m: nat, n: nat)
    requires m > 0 && n > 0
    ensures m * n > 0 && x / m / n == x / (m * n)
  {
    var k := x / m;
    Euclid(x, m);
    Euclid(k, n);
    DivideTwiceBy(x, m, n, k, k / n, k % n, x % m);
  }

  lemma Euclid(x: nat, m: nat)
    requires m > 0
    ensures x == x / m * m + x % m && x % m < m
  {
  }

  lemma DivideTwiceBy(x: nat, m: nat, n: nat, k: nat, q: nat, r: nat, low: nat)
    requires x == k * m + low && k == q * n + r && low < m && r < n
    ensures m * n > 0 && x / (m * n) == q
  {
    Positive(m, n);
    Expand(q, n, r, m, low);
    Below(r, n, m, low);
    DivisionUnique(x, m * n, q, r * m + low);
  }

  lemma Positive(m: nat, n: nat)
    requires m > 0 && n > 0
    ensures m * n > 0
  {
  }

  lemma Expand(q: nat, n: nat, r: nat, m: nat, low: nat)
    ensures (q * n + r) * m + low == q * (m * n) + (r * m + low)
  {
    assert (q * n + r) * m == q * n * m + r * m;
    assert q * n * m == q * (m * n);
  }

  lemma Below(r: nat, n: nat, m: nat, low: nat)
    requires r < n && low < m
    ensures r * m + low < m * n
  {
    assert (r + 1) * m <= n * m;
    assert (r + 1) * m == r * m + m;
  }
}
