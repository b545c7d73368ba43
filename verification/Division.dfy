/** Quotients of integers. */
module Division {

  lemma Divide(x: int, d: int)
    requires d >= 1
    ensures x / d * d + x % d == x && 0 <= x % d < d
  {
  }

  lemma Product(p: int, q: int, d: int)
    requires p < q && d >= 0
    ensures (p + 1) * d <= q * d
  {
    assert (q - (p + 1)) * d >= 0;
  }

  lemma Scale(p: int, q: int, d: int)
    requires p <= q && d >= 0
    ensures p * d <= q * d
  {
    assert (q - p) * d >= 0;
  }

  lemma Quotient(x: int, q: int, d: int)
    requires d >= 1 && q * d <= x < (q + 1) * d
    ensures x / d == q
  {
    Divide(x, d);
    if x / d < q { Product(x / d, q, d); } else if x / d > q { Product(q, x / d, d); }
  }

  /** Adding at most d moves a quotient by at most one. */
  lemma NextQuotient(x: int, s: int, d: int)
    requires d >= 1 && 0 <= s <= d
    ensures x / d <= (x + s) / d <= x / d + 1
  {
    Divide(x, d);
    var q := x / d;
    if x % d + s < d { Quotient(x + s, q, d); } else { Quotient(x + s, q + 1, d); }
  }
}
