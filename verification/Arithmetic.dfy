/** Facts about products and quotients that the other modules share. */
module Arithmetic {

  lemma Scale(d: int, p: int)
    requires p > 0
    ensures d >= 1 ==> d * p >= p
    ensures d <= -1 ==> d * p <= -p
  {
  }

  /** Quotient and remainder are the only ones there are. */
  lemma Quotient(n: int, q: int, r: int, p: int)
    requires n == q * p + r && 0 <= r < p
    ensures n / p == q && n % p == r
  {
    var d := n / p - q;
    assert n == n / p * p + n % p;
    assert d * p == r - n % p;
    Scale(d, p);
  }

  lemma Multiple(a: int, q: int, p: int)
    requires p > 0 && a == q * p
    ensures a % p == 0
  {
    Quotient(a, q, 0, p);
  }

  lemma AtLeast(q: nat, c: nat)
    requires c >= 1
    ensures q * c >= q
  {
  }

  /** A quotient is no larger than what was divided. */
  lemma QuotientBound(n: nat, p: nat)
    requires p >= 1
    ensures 0 <= n / p <= n && n == n / p * p + n % p && n % p < p
  {
    AtLeast(n / p, p);
  }

  function Power2(n: nat): (p: nat)
    ensures p >= 1
  {
    if n == 0 then 1 else 2 * Power2(n - 1)
  }

  function Power10(n: nat): (p: nat)
    ensures p > 0
  {
    if n == 0 then 1 else 10 * Power10(n - 1)
  }

  /** One more decimal place behind a * 10^k + b. */
  lemma OnePlaceMore(a: int, k: nat, b: int)
    ensures 10 * (a * Power10(k) + b) == a * Power10(k + 1) + 10 * b
  {
    assert a * (10 * Power10(k)) == 10 * (a * Power10(k));
  }
}
