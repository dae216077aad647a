/** The few facts about products, quotients and remainders that the solver does not find. */
module Arith {

  lemma MultipleBelow(m: int, k: int, x: int)
    requires m * k == x && -m < x < m
    ensures x == 0
  {
  }

  lemma ProductGrows(m: nat, a: int, b: int)
    requires a <= b
    ensures m * a <= m * b
  {
  }

  /** Quotient and remainder are unique. */
  lemma QuotientIs(a: nat, m: nat, q: nat, r: nat)
    requires m >= 1 && a == m * q + r && r < m
    ensures a / m == q && a % m == r
  {
    var d := a / m - q;
    assert m * d == r - a % m by {
      assert m * d == m * (a / m) - m * q;
    }
    MultipleBelow(m, d, r - a % m);
    if d >= 1 {
      ProductGrows(m, 1, d);
    } else if d <= -1 {
      ProductGrows(m, d, -1);
    }
  }

  lemma QuotientBelow(a: nat, m: nat, n: nat)
    requires m >= 1 && a < m * n
    ensures a / m < n
  {
    if a / m >= n {
      ProductGrows(m, n, a / m);
    }
  }
}
