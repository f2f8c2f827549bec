/** Barrett reduction, with a quotient estimated from a product whose low columns are left out. */
module Barrett {
  import opened Arith
  import opened Digits
  import opened DigitLoops
  import opened BitShifts
  import opened Bits
  import opened BigInt
  import opened Division
  import opened Columns
  import opened Products
  import opened Multiply
  import opened Congruence
  import opened Montgomery

  /** mp_reduce_setup: a becomes b^(2k) / m. */
  method ReduceSetup(a: MpInt, m: MpInt)
    requires a != m && m.Normal() && !m.neg && m.Mag() > 0
    modifies a
    ensures a.Normal() && !a.neg && a.Mag() == Power(2 * |m.dp|) / m.Mag()
  {
    hide Eval;
    hide Power;
    hide Pow2;
    PowerIsPow2(2 * |m.dp|);
    a.TwoExpt(|m.dp| * 2 * DIGIT_BIT);
    var ok := Div(a, m, a, null);
    QuotientOfPositives(Pow2(28 * (2 * |m.dp|)), m.Mag());
    ClampedZero(a.dp);
  }

  lemma QuotientOfPositives(x: nat, y: nat)
    requires y > 0
    ensures Quotient(x, y) == x / y >= 0
  {
    QuotientOf(x, y, 0);
  }

  /** One factor of a product can be divided out of an inequality. */
  lemma CancelBound(x: int, y: int, p: int)
    requires p > 0 && x * p <= y * p
    ensures x <= y
  {
    if x > y {
      MulStrict(y, x, p);
    }
  }

  lemma CancelStrict(x: int, y: int, p: int)
    requires p > 0 && x * p < y * p
    ensures x < y
  {
    if x >= y {
      MulMonotone(y, x, p);
    }
  }

  /** The estimate is never too big ... */
  lemma EstimateIsLow(x: nat, m: nat, q1: nat, mu: nat, q3: nat, a: nat, c: nat)
    requires a > 0 && c > 0 && q1 * a <= x && mu * m <= a * c && q3 * c <= q1 * mu
    ensures q3 * m <= x
  {
    MulMonotone(q3 * c, q1 * mu, m * a);
    MulMonotone(q1 * a, x, mu * m);
    MulMonotone(mu * m, a * c, x);
    LowProducts(x, m, q1, mu, q3, a, c);
    MulStrict(0, a, c);
    CancelBound(q3 * m, x, a * c);
  }

  lemma LowProducts(x: int, m: int, q1: int, mu: int, q3: int, a: int, c: int)
    ensures q3 * c * (m * a) == q3 * m * (a * c)
    ensures q1 * mu * (m * a) == q1 * a * (mu * m)
    ensures mu * m * x == x * (mu * m) && a * c * x == x * (a * c)
  {
    assert q3 * c * (m * a) == q3 * (c * (m * a)) && q3 * m * (a * c) == q3 * (m * (a * c));
    assert c * (m * a) == m * (a * c);
    assert q1 * mu * (m * a) == q1 * (mu * (m * a)) && q1 * a * (mu * m) == q1 * (a * (mu * m));
    assert mu * (m * a) == a * (mu * m);
  }

  /** ... and too small by lost + 2 at most, where the product left out lost * c. */
  lemma EstimateIsClose(x: nat, m: nat, q1: nat, mu: nat, q3: nat, a: nat, c: nat, lost: nat)
    requires c > 0 && 0 < a <= m && x < a * c
    requires q1 * a <= x < (q1 + 1) * a && mu * m <= a * c < (mu + 1) * m
    requires q1 * mu < (q3 + 1 + lost) * c
    ensures x < (q3 + lost + 3) * m
  {
    var r1, r2, w := x - q1 * a, a * c - mu * m, a * c;
    assert (q1 + 1) * a == q1 * a + a && (mu + 1) * m == mu * m + m;
    CloseProducts(x, m, q1, mu, q3, a, c, lost, r1, r2);
    MulMonotone(r1, a, w);
    MulMonotone(a, m, w);
    MulMonotone(r2, m, q1 * a);
    MulStrict(q1 * a, w, m);
    MulStrict(q1 * mu, (q3 + 1 + lost) * c, a * m);
    assert x * w < (q3 + lost + 3) * m * w;
    CancelStrict(x, (q3 + lost + 3) * m, w);
  }

  lemma CloseProducts(x: int, m: int, q1: int, mu: int, q3: int, a: int, c: int, lost: int, r1: int, r2: int)
    requires x == q1 * a + r1 && a * c == mu * m + r2 && c > 0 && 0 < a <= m
    ensures x * (a * c) == q1 * mu * (a * m) + r2 * (q1 * a) + r1 * (a * c)
    ensures (q3 + 1 + lost) * c * (a * m) == (q3 + 1 + lost) * m * (a * c)
    ensures (q3 + lost + 3) * m * (a * c) == (q3 + 1 + lost) * m * (a * c) + 2 * (m * (a * c))
    ensures a * m > 0
  {
    SplitProduct(q1 * a, r1, mu * m, r2);
    MiddleSwap(q1, a, mu, m);
    OuterSwap(q3 + 1 + lost, c, a, m);
    TwoMore(q3 + 1 + lost, m, a * c);
    MulStrict(0, a, m);
  }

  lemma SplitProduct(u: int, r1: int, v: int, r2: int)
    ensures (u + r1) * (v + r2) == u * v + r2 * u + r1 * (v + r2)
  {
  }

  lemma MiddleSwap(p: int, q: int, r: int, s: int)
    ensures p * q * (r * s) == p * r * (q * s)
  {
    assert q * (r * s) == r * (q * s);
    assert p * q * (r * s) == p * (q * (r * s)) && p * r * (q * s) == p * (r * (q * s));
  }

  lemma OuterSwap(p: int, q: int, r: int, s: int)
    ensures p * q * (r * s) == p * s * (r * q)
  {
    assert q * (r * s) == s * (r * q);
    assert p * q * (r * s) == p * (q * (r * s)) && p * s * (r * q) == p * (s * (r * q));
  }

  lemma TwoMore(t: int, m: int, w: int)
    ensures (t + 2) * m * w == t * m * w + 2 * (m * w)
  {
    assert (t + 2) * m == t * m + 2 * m;
    assert (t * m + 2 * m) * w == t * m * w + 2 * (m * w);
  }

  // -------------------------------------------------------- the truncated product

  /** Dividing by b^(k+1) drops what the columns below k hold, true or stale. */
  lemma HighQuotient(q: seq<Digit>, mu: seq<Digit>, k: nat, v: nat)
    requires HighProduct(q, mu, k, v) && k <= |q| + |mu|
    ensures var q3 := v / Power(k + 1);
            && q3 * Power(k + 1) <= Eval(q) * Eval(mu) < (q3 + 1 + k) * Power(k + 1)
  {
    hide Eval;
    hide Power;
    hide ColumnSum;
    var p, e := Power(k), Eval(q) * Eval(mu);
    var rest := Convolution(q, mu, k);
    ColumnSumBound(q, mu, k);
    PowerStep(k);
    var low := v - p * rest;
    DivModUnique(v, p, rest, low);
    DivTwice(v, p, RADIX);
    var q3 := rest / RADIX;
    LostColumns(rest, q3, p, k, ColumnSum(q, mu, k), e);
  }

  lemma LostColumns(rest: nat, q3: nat, p: nat, k: nat, lost: nat, e: nat)
    requires q3 == rest / RADIX && e == lost + p * rest && lost <= k * (RADIX - 1) * p && p > 0
    ensures q3 * (RADIX * p) <= e < (q3 + 1 + k) * (RADIX * p)
  {
    MulMonotone(q3 * RADIX, rest, p);
    assert q3 * RADIX * p == q3 * (RADIX * p);
    assert rest * p == p * rest;
    MulMonotone(rest + 1, (q3 + 1) * RADIX, p);
    assert (rest + 1) * p == p * rest + p;
    assert (q3 + 1) * RADIX * p == (q3 + 1) * (RADIX * p);
    assert k * (RADIX - 1) * p == k * (RADIX * p) - k * p;
    MulMonotone(0, k, p);
    assert (q3 + 1 + k) * (RADIX * p) == (q3 + 1) * (RADIX * p) + k * (RADIX * p);
  }

  lemma FullQuotient(e: nat, k: nat)
    ensures var q3 := e / Power(k + 1); q3 * Power(k + 1) <= e < (q3 + 1 + 0) * Power(k + 1)
  {
    hide Power;
    QuotientOf(e, Power(k + 1), 0);
  }

  /** The sizes that make the product fit the column loops. */
  lemma EstimateSizes(x: seq<Digit>, m: seq<Digit>, mu: seq<Digit>, q1: seq<Digit>)
    requires Clamped(x) && Clamped(m) && m != [] && Eval(m) > 0 && Eval(x) < Eval(m) * Eval(m)
    requires Eval(mu) == Power(2 * |m|) / Eval(m)
    requires |q1| == if |m| - 1 < |x| then |x| - (|m| - 1) else 0
    ensures |q1| <= |m| + 1 && |m| <= |q1| + |mu|
  {
    hide *;
    SquareBelow(m);
    NotLonger(x, 2 * |m|);
    ConstantIsLong(m, mu);
  }

  lemma SquareBelow(m: seq<Digit>)
    ensures Eval(m) * Eval(m) <= Power(2 * |m|)
  {
    hide Eval;
    hide Power;
    EvalBound(m);
    PowerAdd(|m|, |m|);
    MulMonotone(Eval(m), Power(|m|), Eval(m));
    MulMonotone(Eval(m), Power(|m|), Power(|m|));
  }

  lemma NotLonger(x: seq<Digit>, n: nat)
    requires Clamped(x) && Eval(x) < Power(n)
    ensures |x| <= n
  {
    hide Eval;
    hide Power;
    if |x| > n {
      ClampedBounds(x);
      PowerGrows(n, |x| - 1);
    }
  }

  lemma ConstantIsLong(m: seq<Digit>, mu: seq<Digit>)
    requires Eval(m) > 0 && Eval(mu) == Power(2 * |m|) / Eval(m)
    ensures |mu| >= |m|
  {
    hide Eval;
    hide Power;
    var p := Power(|m|);
    EvalBound(m);
    PowerAdd(|m|, |m|);
    MulMonotone(Eval(m), p, p);
    assert p * Eval(m) == Eval(m) * p;
    QuotientOf(Power(2 * |m|), Eval(m), p);
    EvalBound(mu);
    if |mu| < |m| {
      PowerGrows(|mu|, |m|);
    }
  }

  /** The inequalities behind the estimate, for the powers at hand. */
  lemma EstimateBounds(x: nat, m: seq<Digit>, mu: nat, q1: nat, q3: nat, lost: nat)
    requires Clamped(m) && m != [] && x < Eval(m) * Eval(m)
    requires Eval(m) > 0 && mu == Power(2 * |m|) / Eval(m) && q1 == x / Power(|m| - 1)
    requires q3 * Power(|m| + 1) <= q1 * mu < (q3 + 1 + lost) * Power(|m| + 1)
    ensures q3 * Eval(m) <= x < (q3 + lost + 3) * Eval(m)
  {
    hide Eval;
    hide Power;
    var k := |m|;
    var a, c, n := Power(k - 1), Power(k + 1), Eval(m);
    ClampedBounds(m);
    PowerAdd(k - 1, k + 1);
    PowerAdd(k, k);
    assert k - 1 + (k + 1) == 2 * k && k + k == 2 * k;
    MulMonotone(n, Power(k), n);
    MulMonotone(n, Power(k), Power(k));
    QuotientOf(x, a, 0);
    QuotientOf(a * c, n, 0);
    EstimateIsLow(x, n, q1, mu, q3, a, c);
    EstimateIsClose(x, n, q1, mu, q3, a, c, lost);
  }

  /** The first half of mp_reduce: the quotient, too small by lost + 2 at most. */
  method EstimateQuotient(x: MpInt, m: MpInt, mu: MpInt) returns (q: MpInt, ghost lost: nat)
    requires x.Normal() && m.Normal() && mu.Normal() && !x.neg && !m.neg && !mu.neg
    requires m.Mag() > 0 && x.Mag() < m.Mag() * m.Mag() && mu.Mag() == Power(2 * |m.dp|) / m.Mag()
    ensures fresh(q) && q.Normal() && !q.neg && lost + 3 <= RADIX
    ensures q.Mag() * m.Mag() <= x.Mag() < (q.Mag() + lost + 3) * m.Mag()
  {
    hide Eval;
    hide Power;
    hide HighProduct;
    ClampedZero(m.dp);
    var um := |m.dp|;
    q := new MpInt.CopyOf(x);
    q.Rshd(um - 1);
    ghost var q1 := q.Mag();
    EstimateSizes(x.dp, m.dp, mu.dp, q.dp);
    if um > 0x800_0000 {
      MulPositive(q, mu);
      FullQuotient(q.Mag(), um);
      lost := 0;
    } else {
      ghost var s := q.dp;
      MulHighDigs(q, mu, q, um);
      HighQuotient(s, mu.dp, um, q.Mag());
      lost := um;
    }
    q.Rshd(um + 1);
    EstimateBounds(x.Mag(), m.dp, mu.Mag(), q1, q.Mag(), lost);
  }

  method MulPositive(q: MpInt, mu: MpInt)
    requires q != mu && q.Normal() && mu.Normal() && !q.neg && !mu.neg
    modifies q
    ensures q.Normal() && !q.neg && q.Mag() == old(q.Mag()) * mu.Mag()
  {
    hide Eval;
    ghost var u := q.Mag();
    Mul(q, mu, q);
    MulMonotone(0, u, mu.Mag());
    ProductsAreMagnitudes(q);
  }

  /** A difference known to lie in [0, c) can be computed modulo c. */
  lemma DifferenceModulo(x: nat, y: nat, c: nat)
    requires 0 <= x - y < c
    ensures x % c - y % c + (if x % c < y % c then c else 0) == x - y
  {
    var u, v := x / c, y / c;
    assert x == u * c + x % c && y == v * c + y % c;
    var d := u - v;
    assert d * c == u * c - v * c;
    if d >= 2 {
      MulMonotone(2, d, c);
    } else if d <= -1 {
      MulMonotone(d, -1, c);
    }
  }

  /** What is left is below b^(k+1). */
  lemma RestFits(x: nat, q: nat, m: seq<Digit>, lost: nat)
    requires q * Eval(m) <= x < (q + lost + 3) * Eval(m) && lost + 3 <= RADIX
    ensures 0 <= x - q * Eval(m) < Power(|m| + 1)
  {
    hide Eval;
    hide Power;
    EvalBound(m);
    PowerStep(|m|);
    assert (q + lost + 3) * Eval(m) == q * Eval(m) + (lost + 3) * Eval(m);
    MulMonotone(lost + 3, RADIX, Eval(m));
    MulMonotone(Eval(m), Power(|m|), RADIX);
  }

  /** mp_reduce: x becomes x mod m, for every x below m^2. */
  method Reduce(x: MpInt, m: MpInt, mu: MpInt)
    requires x != m && x != mu && x.Normal() && m.Normal() && mu.Normal() && !x.neg && !m.neg && !mu.neg
    requires m.Mag() > 0 && x.Mag() < m.Mag() * m.Mag() && mu.Mag() == Power(2 * |m.dp|) / m.Mag()
    modifies x
    ensures x.Normal() && !x.neg && x.Mag() == old(x.Mag()) % m.Mag()
  {
    hide Eval;
    hide Power;
    hide Pow2;
    ghost var v, n := x.Mag(), m.Mag();
    var um := |m.dp|;
    var q, lost := EstimateQuotient(x, m, mu);
    ghost var e := q.Mag();
    RestFits(v, e, m.dp, lost);
    SubtractEstimate(x, m, q, e);
    ghost var r := x.Mag();
    ReducedRest(v, e, n, r);
    while true
      invariant x.Normal() && !x.neg && x.Mag() % n == v % n
      decreases x.Mag()
    {
      var c := MpInt.Cmp(x, m);
      if c == Less {
        break;
      }
      OrderedLengths(x.dp, m.dp);
      OneModulusLess(x.Mag(), n);
      x.SSub(x, m);
    }
    DivModUnique(x.Mag(), n, 0, x.Mag());
  }

  lemma OneModulusLess(x: int, n: nat)
    requires n > 0
    ensures (x - n) % n == x % n
  {
    ModAddMultiple(x - n, 1, n);
  }

  lemma ReducedRest(v: nat, e: nat, n: nat, r: nat)
    requires n > 0 && r == v - e * n
    ensures r % n == v % n
  {
    ModAddMultiple(r, e, n);
  }

  /** x := x - q * m, computed modulo b^(k+1); q ends up as scratch space. */
  method SubtractEstimate(x: MpInt, m: MpInt, q: MpInt, ghost e: nat)
    requires x != m && x != q && q != m && x.Normal() && m.Normal() && q.Normal() && !x.neg && !m.neg && !q.neg
    requires q.Mag() == e && 0 <= x.Mag() - e * m.Mag() < Power(|m.dp| + 1)
    modifies x, q
    ensures x.Normal() && !x.neg && x.Mag() == old(x.Mag()) - e * m.Mag()
  {
    hide Eval;
    hide Power;
    hide Pow2;
    var um := |m.dp|;
    ghost var v, n := x.Mag(), m.Mag();
    PowerIsPow2(um + 1);
    x.Mod2d(x, DIGIT_BIT * (um + 1));
    MulDigs(q, m, q, um + 1);
    DifferenceModulo(v, e * n, Power(um + 1));
    x.Sub(x, q);
    ClampedZero(x.dp);
    if x.neg {
      q.Set(1);
      ClampedZero(q.dp);
      ghost var one := q.dp;
      q.Lshd(um + 1);
      LongerComparable(x.dp, one, um + 1);
      x.Add(x, q);
    }
    ProductsAreMagnitudes(x);
  }
}
