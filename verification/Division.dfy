/** Integer division pinned down by quotient and remainder. */
module Division {
  lemma SmallMultiple(d: int, k: int)
    requires d > 0
    ensures k >= 1 ==> d * k >= d
    ensures k <= -1 ==> d * k <= -d
  {
  }

  lemma SameQuotient(d: int, a: int, r: int, b: int, s: int)
    requires d > 0 && d * a + r == d * b + s && 0 <= r < d && 0 <= s < d
    ensures a == b
  {
    SmallMultiple(d, a - b);
  }

  lemma Quotient(n: int, d: int, q: int, r: int)
    requires d > 0 && n == d * q + r && 0 <= r < d
    ensures n / d == q
  {
    SameQuotient(d, n / d, n % d, q, r);
  }
}
