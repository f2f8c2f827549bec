/** Congruence modulo n, by a witness for the quotient. */
module Congruence {
  import opened Arith
  import opened Bits

  /** n divides x - y. */
  ghost predicate Congruent(x: int, y: int, n: int) {
    exists q: int :: Multiple(x, y, n, q)
  }

  ghost predicate Multiple(x: int, y: int, n: int, q: int) {
    x == y + q * n
  }

  lemma CongruentBy(x: int, y: int, n: int, q: int)
    requires x == y + q * n
    ensures Congruent(x, y, n)
  {
    assert Multiple(x, y, n, q);
  }

  lemma Witness(x: int, y: int, n: int) returns (q: int)
    requires Congruent(x, y, n)
    ensures x == y + q * n
  {
    q :| Multiple(x, y, n, q);
  }

  lemma Reflexive(x: int, n: int)
    ensures Congruent(x, x, n)
  {
    CongruentBy(x, x, n, 0);
  }

  lemma Symmetric(x: int, y: int, n: int)
    requires Congruent(x, y, n)
    ensures Congruent(y, x, n)
  {
    var q := Witness(x, y, n);
    NegatedMultiple(q, n);
    CongruentBy(y, x, n, -q);
  }

  lemma NegatedMultiple(q: int, n: int)
    ensures (-q) * n == -(q * n)
  {
  }

  lemma Transitive(x: int, y: int, z: int, n: int)
    requires Congruent(x, y, n) && Congruent(y, z, n)
    ensures Congruent(x, z, n)
  {
    var p := Witness(x, y, n);
    var q := Witness(y, z, n);
    assert (p + q) * n == p * n + q * n;
    CongruentBy(x, z, n, p + q);
  }

  lemma Product(x: int, y: int, u: int, v: int, n: int)
    requires Congruent(x, y, n) && Congruent(u, v, n)
    ensures Congruent(x * u, y * v, n)
  {
    var p := Witness(x, y, n);
    var q := Witness(u, v, n);
    ProductValue(y, p, v, q, n);
    CongruentBy(x * u, y * v, n, y * q + p * v + p * q * n);
  }

  lemma ProductValue(y: int, p: int, v: int, q: int, n: int)
    ensures (y + p * n) * (v + q * n) == y * v + (y * q + p * v + p * q * n) * n
  {
    var a, b := p * n, q * n;
    assert (y + a) * (v + b) == y * v + y * b + a * v + a * b;
    assert y * (q * n) == y * q * n && p * n * v == p * v * n;
    assert a * (q * n) == p * q * n * n by {
      assert p * n * q == p * q * n;
    }
    assert (y * q + p * v + p * q * n) * n == y * q * n + p * v * n + p * q * n * n;
  }

  lemma Sum(x: int, y: int, u: int, v: int, n: int)
    requires Congruent(x, y, n) && Congruent(u, v, n)
    ensures Congruent(x + u, y + v, n)
  {
    var p := Witness(x, y, n);
    var q := Witness(u, v, n);
    assert (p + q) * n == p * n + q * n;
    CongruentBy(x + u, y + v, n, p + q);
  }

  /** The remainder is the one number in range. */
  lemma IsRemainder(x: int, r: int, n: int)
    requires 0 <= r < n && Congruent(x, r, n)
    ensures r == x % n
  {
    var q := Witness(x, r, n);
    DivModUnique(x, n, q, r);
  }

  lemma RemainderIs(x: int, n: int)
    requires n > 0
    ensures Congruent(x, x % n, n) && Congruent(x % n, x, n)
  {
    var q := x / n;
    assert x == q * n + x % n;
    CongruentBy(x, x % n, n, q);
    Symmetric(x, x % n, n);
  }

  lemma SameRemainder(x: int, y: int, n: int)
    requires n > 0
    ensures Congruent(x, y, n) <==> x % n == y % n
  {
    RemainderIs(x, n);
    RemainderIs(y, n);
    if Congruent(x, y, n) {
      Transitive(x, y, y % n, n);
      IsRemainder(x, y % n, n);
    }
    if x % n == y % n {
      Transitive(x, x % n, y, n);
    }
  }

  /** An odd modulus lets factors of two be cancelled. */
  lemma CancelTwo(x: int, y: int, n: int)
    requires n % 2 == 1 && Congruent(2 * x, 2 * y, n)
    ensures Congruent(x, y, n)
  {
    var q := Witness(2 * x, 2 * y, n);
    EvenQuotient(x - y, q, n);
    CongruentBy(x, y, n, q / 2);
  }

  lemma EvenQuotient(z: int, q: int, n: int)
    requires n % 2 == 1 && 2 * z == q * n
    ensures z == q / 2 * n
  {
    var h, r := q / 2, q % 2;
    assert q == 2 * h + r;
    assert q * n == 2 * (h * n) + r * n;
    BitTimes(r, n);
  }

  lemma BitTimes(r: int, n: int)
    requires 0 <= r <= 1
    ensures r * n == if r == 1 then n else 0
  {
  }

  lemma {:induction false} CancelPow2(x: int, y: int, k: nat, n: int)
    requires n % 2 == 1 && Congruent(x * Pow2(k), y * Pow2(k), n)
    ensures Congruent(x, y, n)
    decreases k
  {
    if k > 0 {
      assert x * Pow2(k) == 2 * (x * Pow2(k - 1)) && y * Pow2(k) == 2 * (y * Pow2(k - 1));
      CancelTwo(x * Pow2(k - 1), y * Pow2(k - 1), n);
      CancelPow2(x, y, k - 1, n);
    } else {
      assert x * Pow2(0) == x && y * Pow2(0) == y;
    }
  }

  /** Modulo an odd number every number can be divided by a power of two. */
  lemma {:induction false} DividePow2(x: int, k: nat, n: int) returns (y: int)
    requires n % 2 == 1
    ensures Congruent(x, y * Pow2(k), n)
    decreases k
  {
    if k == 0 {
      y := x;
      assert y * Pow2(0) == y;
      Reflexive(x, n);
    } else {
      var z := DividePow2(x, k - 1, n);
      y := if z % 2 == 0 then z / 2 else (z + n) / 2;
      var q := if z % 2 == 0 then 0 else -1;
      assert z == 2 * y + q * n;
      DoubledFactor(y, z, q, n, Pow2(k - 1));
      CongruentBy(z * Pow2(k - 1), y * Pow2(k), n, q * Pow2(k - 1));
      Transitive(x, z * Pow2(k - 1), y * Pow2(k), n);
    }
  }

  lemma DoubledFactor(y: int, z: int, q: int, n: int, p: int)
    requires z == 2 * y + q * n
    ensures z * p == y * (2 * p) + q * p * n
  {
    assert (2 * y + q * n) * p == 2 * y * p + q * n * p;
  }
}
