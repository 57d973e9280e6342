/** Facts about products and quotients, each small enough to be cheap, and bounds that several modules share. */
module Arith {

  const I64_MAX: nat := 0x7FFF_FFFF_FFFF_FFFF

  /** Up to here a double holds every whole number. */
  const TWO_53: nat := 0x20_0000_0000_0000

  lemma Distribute(a: int, b: int, c: int)
    ensures (a + b) * c == a * c + b * c
  {
  }

  lemma Regroup(a: int, b: int, c: int)
    ensures (a * b) * c == a * (b * c)
  {
  }

  lemma ProductOrder(x: int, y: int, b: int)
    requires x <= y && 0 <= b
    ensures x * b <= y * b
  {
    Distribute(x, y - x, b);
  }

  lemma MultipleAtLeast(k: int, m: nat)
    requires 1 <= k
    ensures k * m >= m
  {
    ProductOrder(1, k, m);
  }

  /** Quotient and remainder are determined by the division equation. */
  lemma DivModUnique(a: int, q: int, r: int, m: int)
    requires 0 < m && a == q * m + r && 0 <= r < m
    ensures a / m == q && a % m == r
  {
    var k := a / m - q;
    assert a == (a / m) * m + a % m;
    Distribute(a / m, -q, m);
    if k >= 1 {
      MultipleAtLeast(k, m);
    } else if k <= -1 {
      MultipleAtLeast(-k, m);
    }
  }

  lemma QuotientBound(a: int, b: int, cap: int)
    requires 0 < b && 0 <= a < b * cap + b
    ensures 0 <= a / b <= cap
  {
    assert a == (a / b) * b + a % b;
    if cap + 1 <= a / b {
      ProductOrder(cap + 1, a / b, b);
    }
  }

  lemma QuotientAtLeast(v: nat, b: nat, a: nat)
    requires 0 < b && v * b <= a
    ensures v <= a / b
  {
    assert a == (a / b) * b + a % b;
    Distribute(a / b, 1, b);
    if a / b + 1 <= v {
      ProductOrder(a / b + 1, v, b);
    }
  }
}
