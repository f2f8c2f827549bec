/** Facts about multiplication, division and powers that the solver needs spelled out. */
module Arith {

  /** Division with remainder has one answer. */
  lemma DivModUnique(x: int, m: int, q: int, r: int)
    requires 0 < m && x == q * m + r && 0 <= r < m
    ensures x / m == q && x % m == r
  {
    var d := q - x / m;
    assert x == x / m * m + x % m;
    assert d * m == x % m - r by {
      assert d * m == q * m - x / m * m;
    }
    if d >= 1 {
      MulMonotone(1, d, m);
    } else if d <= -1 {
      MulMonotone(d, -1, m);
    }
  }

  lemma MulMonotone(x: int, y: int, m: int)
    requires x <= y && 0 <= m
    ensures x * m <= y * m
  {
    assert (y - x) * m >= 0;
  }

  lemma MulStrict(x: int, y: int, m: int)
    requires x < y && 0 < m
    ensures x * m < y * m
  {
    assert (y - x) * m > 0;
  }

  lemma ModMultiple(k: int, m: int)
    requires 0 < m
    ensures (k * m) % m == 0 && (k * m) / m == k
  {
    DivModUnique(k * m, m, k, 0);
  }

  /** Adding multiples of the modulus changes the quotient only. */
  lemma ModAddMultiple(x: int, k: int, m: int)
    requires 0 < m
    ensures (x + k * m) % m == x % m && (x + k * m) / m == x / m + k
  {
    assert x + k * m == (x / m + k) * m + x % m by {
      assert (x / m + k) * m == x / m * m + k * m;
    }
    DivModUnique(x + k * m, m, x / m + k, x % m);
  }

  /** Equal remainders mean the difference is a multiple. */
  lemma ModDifference(x: int, y: int, m: int) returns (k: int)
    requires 0 < m && x % m == y % m
    ensures x == y + k * m
  {
    k := x / m - y / m;
    assert k * m == x / m * m - y / m * m;
  }
}
