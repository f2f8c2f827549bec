/** mp_mul: picks schoolbook, column, Karatsuba or Toom-Cook multiplication by size,
    and the last two come back to it for their smaller products. */
module Multiply {
  import opened Arith
  import opened Digits
  import opened DigitLoops
  import opened BitShifts
  import opened Bits
  import opened BigInt
  import opened SmallFactors
  import opened Interpolation
  import opened Columns
  import opened Products
  import opened ToomParts

  const KARATSUBA_MUL_CUTOFF := 80

  // ------------------------------------------------------------ truncated products

  /** s_mp_mul_digs: |a| * |b| mod b^digs. */
  method MulDigs(a: MpInt, b: MpInt, c: MpInt, digs: nat)
    modifies c
    ensures c.Normal() && c.Mag() == old(a.Mag() * b.Mag()) % Power(digs) && (c.neg ==> old(c.neg))
  {
    hide Eval;
    hide Power;
    if digs < WARRAY && Least(|a.dp|, |b.dp|) < MAX_COLUMN {
      c.dp := FastMulDigs(a.dp, b.dp, digs);
    } else {
      c.dp := SlowMulDigs(a.dp, b.dp, digs);
      c.neg := false;
    }
    c.Clamp();
  }

  /** s_mp_mul_high_digs: the columns of |a| * |b| from digs up, and anything below. */
  method MulHighDigs(a: MpInt, b: MpInt, c: MpInt, digs: nat)
    requires |a.dp| <= digs + 1 && digs <= |a.dp| + |b.dp|
    modifies c
    ensures c.Normal() && HighProduct(old(a.dp), old(b.dp), digs, c.Mag()) && (c.neg ==> old(c.neg))
  {
    hide Eval;
    hide Power;
    hide ColumnSum;
    if |a.dp| + |b.dp| + 1 < WARRAY && Least(|a.dp|, |b.dp|) < MAX_COLUMN {
      c.dp := FastMulHighDigs(a.dp, b.dp, c.dp, digs);
    } else {
      c.dp := SlowMulHighDigs(a.dp, b.dp, digs);
      c.neg := false;
    }
    c.Clamp();
  }

  /** Whether the columns of a product of numbers of so many digits fit the column multiplier. */
  predicate FitsColumns(x: nat, y: nat) {
    x + y + 1 < WARRAY && Least(x, y) <= MAX_COLUMN
  }

  /** The column and schoolbook products, in full: c := |a| * |b|. */
  method MulPlain(a: MpInt, b: MpInt, c: MpInt)
    modifies c
    ensures c.Normal() && c.Mag() == old(a.Mag() * b.Mag())
  {
    hide Eval;
    hide Power;
    var digs := |a.dp| + |b.dp| + 1;
    ghost var v := a.Mag() * b.Mag();
    ProductBelow(a.dp, b.dp);
    PowerGrows(digs - 1, digs);
    DivModUnique(v, Power(digs), 0, v);
    if FitsColumns(|a.dp|, |b.dp|) {
      c.dp := FastMulDigs(a.dp, b.dp, digs);
      c.Clamp();
    } else {
      MulDigs(a, b, c, digs);
    }
  }

  // ------------------------------------------------------------------ Karatsuba

  lemma KaratsubaValue(p: int, x0: int, x1: int, y0: int, y1: int)
    ensures x0 * y0 + ((x1 + x0) * (y1 + y0) - (x0 * y0 + x1 * y1)) * p + x1 * y1 * (p * p)
         == (x0 + p * x1) * (y0 + p * y1)
  {
    assert (x1 + x0) * (y1 + y0) == x1 * y1 + x1 * y0 + x0 * y1 + x0 * y0;
    assert (x1 * y0 + x0 * y1) * p == p * x1 * y0 + x0 * (p * y1);
    assert x1 * y1 * (p * p) == p * x1 * (p * y1);
    assert (x0 + p * x1) * (y0 + p * y1) == x0 * y0 + x0 * (p * y1) + p * x1 * y0 + p * x1 * (p * y1);
  }

  lemma DoublePower(n: nat)
    ensures Power(2 * n) == Power(n) * Power(n)
  {
    PowerAdd(n, n);
    assert n + n == 2 * n;
  }

  /** The low n digits and the rest, as fresh non-negative numbers. */
  method Halves(a: MpInt, n: nat) returns (x0: MpInt, x1: MpInt)
    requires a.Normal() && n < |a.dp|
    ensures fresh(x0) && fresh(x1) && x0 != x1 && x0.Normal() && x1.Normal() && !x0.neg && !x1.neg
    ensures |x0.dp| <= n && |x1.dp| == |a.dp| - n
    ensures a.Mag() == x0.Mag() + Power(n) * x1.Mag()
  {
    hide Eval;
    hide Power;
    x0 := new MpInt();
    x1 := new MpInt();
    x0.dp, x1.dp := a.dp[..n], a.dp[n..];
    EvalSplit(a.dp, n);
    x0.Clamp();
  }

  lemma CrossTerms(x0: nat, x1: nat, y0: nat, y1: nat)
    ensures (x1 + x0) * (y1 + y0) >= x0 * y0 + x1 * y1
  {
    assert (x1 + x0) * (y1 + y0) == x1 * y1 + x1 * y0 + x0 * y1 + x0 * y0;
    MulMonotone(0, x1, y0);
    MulMonotone(0, x0, y1);
  }

  /** From the three products p0, p1 and s to the result; low is scratch space. */
  method Assemble(x0y0: MpInt, x1y1: MpInt, t1: MpInt, low: MpInt, c: MpInt, n: nat, ghost p0: nat, ghost p1: nat, ghost s: nat)
    requires x0y0 != x1y1 && x0y0 != t1 && x0y0 != low && x1y1 != t1 && x1y1 != low && t1 != low
    requires c != x0y0 && c != x1y1 && c != t1 && c != low
    requires x0y0.Normal() && x1y1.Normal() && t1.Normal() && !x0y0.neg && !x1y1.neg && !t1.neg
    requires x0y0.Mag() == p0 && x1y1.Mag() == p1 && t1.Mag() == s >= p0 + p1
    modifies x1y1, t1, low, c
    ensures c.Normal() && c.Value() == p0 + (s - (p0 + p1)) * Power(n) + p1 * Power(2 * n)
  {
    hide Eval;
    hide Power;
    EvalNone();
    low.Add(x0y0, x1y1);
    OrderedLengths(t1.dp, low.dp);
    t1.SSub(t1, low);
    t1.Lshd(n);
    x1y1.Lshd(2 * n);
    t1.Add(x0y0, t1);
    c.Add(t1, x1y1);
  }

  /** A product, as one symbol. */
  ghost function Times(x: int, y: int): int {
    x * y
  }

  lemma TimesFacts(p: int, u0: nat, u1: nat, v0: nat, v1: nat)
    ensures Times(u1 + u0, v1 + v0) >= Times(u0, v0) + Times(u1, v1)
    ensures Times(u0, v0) + (Times(u1 + u0, v1 + v0) - (Times(u0, v0) + Times(u1, v1))) * p + Times(u1, v1) * (p * p)
         == Times(u0 + p * u1, v0 + p * v1)
    ensures Times(u0, v0) >= 0 && Times(u1, v1) >= 0
  {
    CrossTerms(u0, u1, v0, v1);
    KaratsubaValue(p, u0, u1, v0, v1);
  }

  /** mp_mul of non-negative numbers, the case that Karatsuba needs. */
  method MulNonNegative(x: MpInt, y: MpInt, z: MpInt)
    requires x.Normal() && y.Normal() && !x.neg && !y.neg
    modifies z
    ensures z.Normal() && !z.neg && z.Mag() == Times(old(x.Mag()), old(y.Mag()))
    decreases Least(|x.dp|, |y.dp|), 3
  {
    hide Eval;
    ghost var u, v := x.Mag(), y.Mag();
    Mul(x, y, z);
    MulMonotone(0, u, v);
    ProductsAreMagnitudes(z);
  }

  /** The three half-size products; x0 ends up as scratch space. */
  method ThreeProducts(x0: MpInt, x1: MpInt, y0: MpInt, y1: MpInt, n: nat) returns (x0y0: MpInt, x1y1: MpInt, t1: MpInt)
    requires x0 != x1 && x0 != y0 && x0 != y1
    requires x0.Normal() && x1.Normal() && y0.Normal() && y1.Normal() && !x0.neg && !x1.neg && !y0.neg && !y1.neg
    requires |x0.dp| <= n <= |x1.dp| && |y0.dp| <= n <= |y1.dp|
    modifies x0
    ensures fresh(x0y0) && fresh(x1y1) && fresh(t1) && x0y0 != x1y1 && x0y0 != t1 && x1y1 != t1
    ensures x0y0.Normal() && x1y1.Normal() && t1.Normal() && !x0y0.neg && !x1y1.neg && !t1.neg
    ensures x0y0.Mag() == Times(old(x0.Mag()), y0.Mag()) && x1y1.Mag() == Times(x1.Mag(), y1.Mag())
    ensures t1.Mag() == Times(x1.Mag() + old(x0.Mag()), y1.Mag() + y0.Mag())
    decreases Least(|x1.dp|, |y1.dp|) + 1, 4
  {
    hide Eval;
    hide Times;
    x0y0 := new MpInt();
    x1y1 := new MpInt();
    t1 := new MpInt();
    MulNonNegative(x0, y0, x0y0);
    MulNonNegative(x1, y1, x1y1);
    t1.SAdd(x1, x0);
    x0.SAdd(y1, y0);
    MulNonNegative(t1, x0, t1);
  }

  /** mp_karatsuba_mul: c := |a| * |b|. */
  method KaratsubaMul(a: MpInt, b: MpInt, c: MpInt)
    requires a.Normal() && b.Normal() && Least(|a.dp|, |b.dp|) >= 4
    modifies c
    ensures c.Normal() && c.Value() == Times(old(a.Mag()), old(b.Mag()))
    decreases Least(|a.dp|, |b.dp|), 0
  {
    hide Eval;
    hide Power;
    hide Times;
    hide Clamped;
    var n := Least(|a.dp|, |b.dp|) / 2;
    var x0, x1 := Halves(a, n);
    var y0, y1 := Halves(b, n);
    ghost var u0, u1, v0, v1 := x0.Mag(), x1.Mag(), y0.Mag(), y1.Mag();
    var x0y0, x1y1, t1 := ThreeProducts(x0, x1, y0, y1, n);
    TimesFacts(Power(n), u0, u1, v0, v1);
    DoublePower(n);
    Assemble(x0y0, x1y1, t1, x0, c, n, Times(u0, v0), Times(u1, v1), Times(u1 + u0, v1 + v0));
  }

  lemma ProductsAreMagnitudes(x: MpInt)
    requires x.Normal() && x.Value() >= 0
    ensures !x.neg && x.Mag() == x.Value()
  {
    ClampedZero(x.dp);
  }

  // ------------------------------------------------------------------ Toom-Cook

  /** The family of operands that mp_toom_mul gets wrong when their signs differ: empty
      middle thirds, and low thirds whose product is short but not zero. */
  predicate ToomMisses(a: seq<Digit>, b: seq<Digit>) {
    var n := Least(|a|, |b|) / 3;
    && n > 0
    && Eval(a[n..2 * n]) == 0 && Eval(b[n..2 * n]) == 0
    && 0 < Eval(a[..n]) * Eval(b[..n]) < Power(n - 1)
  }

  lemma SignedFrom(w: MpInt, neg: bool)
    requires w.Normal() && (if neg then w.Value() <= 0 else w.Value() >= 0)
    ensures Signed(w, neg)
  {
    ClampedZero(w.dp);
  }

  lemma SignedSign(w: MpInt, neg: bool)
    requires Signed(w, neg)
    ensures if neg then w.Value() <= 0 else w.Value() >= 0
  {
  }

  /** The three parts of a that mp_toom_mul works with; each has the sign of a. */
  method Thirds(a: MpInt, n: nat) returns (x0: MpInt, x1: MpInt, x2: MpInt)
    requires a.Normal() && 3 * n <= |a.dp| && n > 0
    ensures fresh(x0) && fresh(x1) && fresh(x2) && x0 != x1 && x0 != x2 && x1 != x2
    ensures Signed(x0, a.neg) && Signed(x1, a.neg) && Signed(x2, a.neg)
    ensures x0.Mag() == Eval(a.dp[..n]) && x1.Mag() == Eval(a.dp[n..2 * n]) && x2.dp == a.dp[2 * n..]
    ensures |x0.dp| <= n && |x1.dp| <= n
    ensures a.Value() == x0.Value() + Power(n) * x1.Value() + Power(2 * n) * x2.Value()
  {
    hide Eval;
    hide Power;
    hide Pow2;
    x0 := new MpInt();
    x1 := new MpInt();
    x2 := new MpInt();
    LowPart(a.dp, n);
    x0.Mod2d(a, DIGIT_BIT * n);
    x1.Copy(a);
    x1.Rshd(n);
    LowPart(a.dp[n..], n);
    assert a.dp[n..][..n] == a.dp[n..2 * n];
    x1.Mod2d(x1, DIGIT_BIT * n);
    x2.Copy(a);
    x2.Rshd(2 * n);
    PartLength(x0.dp, a.dp[..n]);
    PartLength(x1.dp, a.dp[n..2 * n]);
    EvalNone();
    ThirdsValue(a.dp, n);
    NegatedThirds(Power(n), Power(2 * n), x1.Mag(), x2.Mag());
  }

  lemma LowPart(s: seq<Digit>, n: nat)
    requires n <= |s|
    ensures Eval(s) % Pow2(DIGIT_BIT * n) == Eval(s[..n])
  {
    hide Eval;
    hide Pow2;
    hide Power;
    PowerIsPow2(n);
    EvalSplit(s, n);
    EvalBound(s[..n]);
    DivModUnique(Eval(s), Power(n), Eval(s[n..]), Eval(s[..n]));
  }

  lemma PartLength(x: seq<Digit>, s: seq<Digit>)
    requires Clamped(x) && Eval(x) == Eval(s)
    ensures |x| <= |s|
  {
    hide Eval;
    if |x| > |s| {
      ShorterIsLess(s, x);
    }
  }

  lemma ThirdsValue(s: seq<Digit>, n: nat)
    requires 3 * n <= |s|
    ensures Eval(s) == Eval(s[..n]) + Power(n) * Eval(s[n..2 * n]) + Power(2 * n) * Eval(s[2 * n..])
  {
    hide Eval;
    hide Power;
    EvalSplit(s, 2 * n);
    EvalSplit(s[..2 * n], n);
    assert s[..2 * n][..n] == s[..n] && s[..2 * n][n..] == s[n..2 * n];
  }

  lemma NegatedThirds(p: int, q: int, x: int, y: int)
    ensures p * (-x) == -(p * x) && q * (-y) == -(q * y)
  {
  }

  /** t := z + 2 * (y + 2 * x). */
  method PointAt(x: MpInt, y: MpInt, z: MpInt, t: MpInt, ghost neg: bool, ghost l: nat)
    requires Signed(x, neg) && Signed(y, neg) && Signed(z, neg) && t != x && t != y && t != z
    requires |x.dp| <= l && |y.dp| <= l && |z.dp| <= l
    modifies t
    ensures Signed(t, neg) && t.Value() == z.Value() + 2 * y.Value() + 4 * x.Value() && |t.dp| <= l + 4
    ensures t.Mag() == z.Mag() + 2 * y.Mag() + 4 * x.Mag()
  {
    hide Eval;
    SignedValue(x, neg);
    SignedValue(y, neg);
    SignedValue(z, neg);
    SignedSign(x, neg);
    SignedSign(y, neg);
    SignedSign(z, neg);
    Mul2(x, t);
    t.Add(t, y);
    Mul2(t, t);
    t.Add(t, z);
    SignedFrom(t, neg);
    SignedValue(t, neg);
  }

  /** t := z + y + x. */
  method SumAt(x: MpInt, y: MpInt, z: MpInt, t: MpInt, ghost neg: bool, ghost l: nat)
    requires Signed(x, neg) && Signed(y, neg) && Signed(z, neg) && t != x && t != y && t != z
    requires |x.dp| <= l && |y.dp| <= l && |z.dp| <= l
    modifies t
    ensures Signed(t, neg) && t.Value() == z.Value() + y.Value() + x.Value() && |t.dp| <= l + 4
    ensures t.Mag() == z.Mag() + y.Mag() + x.Mag()
  {
    hide Eval;
    SignedValue(x, neg);
    SignedValue(y, neg);
    SignedValue(z, neg);
    SignedSign(x, neg);
    SignedSign(y, neg);
    SignedSign(z, neg);
    t.Add(z, y);
    t.Add(t, x);
    SignedFrom(t, neg);
    SignedValue(t, neg);
  }

  /** A product inside Toom-Cook. */
  method MulSigned(x: MpInt, y: MpInt, z: MpInt, ghost na: bool, ghost nb: bool, ghost l: nat)
    requires Signed(x, na) && Signed(y, nb) && z != x && z != y
    requires Least(|x.dp|, |y.dp|) <= l
    modifies z
    ensures z.Normal()
    ensures na == nb || Exact(x.Mag(), y.Mag()) ==> z.Value() == Times(x.Value(), y.Value()) && Signed(z, na != nb)
    decreases l, 3
  {
    hide Eval;
    hide Exact;
    SignedSign(x, na);
    SignedSign(y, nb);
    Mul(x, y, z);
    SignOfProduct(x.Value(), y.Value(), na, nb);
    if na == nb || Exact(x.Mag(), y.Mag()) {
      SignedFrom(z, na != nb);
    }
  }

  lemma SignOfProduct(u: int, v: int, na: bool, nb: bool)
    requires (if na then u <= 0 else u >= 0) && (if nb then v <= 0 else v >= 0)
    ensures if na != nb then u * v <= 0 else u * v >= 0
  {
    var x, y := if na then -u else u, if nb then -v else v;
    assert x * y >= 0;
    assert (-x) * y == -(x * y) && x * (-y) == -(x * y) && (-x) * (-y) == x * y;
  }

  lemma SignedValue(x: MpInt, neg: bool)
    requires Signed(x, neg)
    ensures x.Value() == WithSign(neg, x.Mag())
  {
    EvalNone();
  }

  lemma TimesWithSign(na: bool, nb: bool, u: int, v: int)
    ensures Times(WithSign(na, u), WithSign(nb, v)) == WithSign(na != nb, Times(u, v))
  {
    assert (-u) * v == -(u * v) && u * (-v) == -(u * v) && (-u) * (-v) == u * v;
  }

  /** The coefficients of the product of two quadratics. */
  ghost function C1(x0: int, x1: int, y0: int, y1: int): int {
    Times(x0, y1) + Times(x1, y0)
  }

  ghost function C2(x0: int, x1: int, x2: int, y0: int, y1: int, y2: int): int {
    Times(x0, y2) + Times(x1, y1) + Times(x2, y0)
  }

  lemma ToomEvaluated(x0: int, x1: int, x2: int, y0: int, y1: int, y2: int)
    ensures Evaluated(Times(x0, y0), C1(x0, x1, y0, y1), C2(x0, x1, x2, y0, y1, y2), C1(x1, x2, y1, y2), Times(x2, y2),
                      Times(x0, y0), Times(x2 + 2 * x1 + 4 * x0, y2 + 2 * y1 + 4 * y0),
                      Times(x2 + x1 + x0, y2 + y1 + y0), Times(x0 + 2 * x1 + 4 * x2, y0 + 2 * y1 + 4 * y2), Times(x2, y2))
  {
    ThreeByThree(4, 2, 1, x0, x1, x2, y0, y1, y2);
    ThreeByThree(1, 1, 1, x0, x1, x2, y0, y1, y2);
    ThreeByThree(1, 2, 4, x0, x1, x2, y0, y1, y2);
  }

  lemma ThreeByThree(p: int, q: int, r: int, x0: int, x1: int, x2: int, y0: int, y1: int, y2: int)
    ensures (p * x0 + q * x1 + r * x2) * (p * y0 + q * y1 + r * y2)
         == p * p * (x0 * y0) + p * q * (x0 * y1 + x1 * y0) + p * r * (x0 * y2 + x2 * y0) + q * q * (x1 * y1)
            + q * r * (x1 * y2 + x2 * y1) + r * r * (x2 * y2)
  {
    var u, v, w := p * x0, q * x1, r * x2;
    var d, e, f := p * y0, q * y1, r * y2;
    assert (u + v + w) * (d + e + f) == u * d + u * e + u * f + v * d + v * e + v * f + w * d + w * e + w * f;
    FourFactors(p, x0, p, y0);
    FourFactors(p, x0, q, y1);
    FourFactors(p, x0, r, y2);
    FourFactors(q, x1, p, y0);
    FourFactors(q, x1, q, y1);
    FourFactors(q, x1, r, y2);
    FourFactors(r, x2, p, y0);
    FourFactors(r, x2, q, y1);
    FourFactors(r, x2, r, y2);
    Spread(p, q, x0 * y1, x1 * y0);
    Spread(p, r, x0 * y2, x2 * y0);
    Spread(q, r, x1 * y2, x2 * y1);
  }

  lemma FourFactors(p: int, x: int, q: int, y: int)
    ensures p * x * (q * y) == p * q * (x * y) == q * p * (x * y)
  {
  }

  lemma Spread(p: int, q: int, x: int, y: int)
    ensures p * q * (x + y) == p * q * x + p * q * y
  {
  }

  lemma ToomValue(n: nat, x0: int, x1: int, x2: int, y0: int, y1: int, y2: int)
    ensures Times(x0, y0) + C1(x0, x1, y0, y1) * Power(n) + C2(x0, x1, x2, y0, y1, y2) * Power(2 * n)
            + C1(x1, x2, y1, y2) * Power(3 * n) + Times(x2, y2) * Power(4 * n)
         == Times(x0 + Power(n) * x1 + Power(2 * n) * x2, y0 + Power(n) * y1 + Power(2 * n) * y2)
  {
    hide Power;
    DoublePower(n);
    DoublePower(2 * n);
    PowerAdd(n, 2 * n);
    var p, q := Power(n), Power(2 * n);
    ThreeByThree(1, p, q, x0, x1, x2, y0, y1, y2);
    assert q * (x0 * y2 + x2 * y0) + q * (x1 * y1) == C2(x0, x1, x2, y0, y1, y2) * q;
  }

  /** The product of both polynomials at one point, where first and second build the values. */
  method PointProduct(x: MpInt, y: MpInt, z: MpInt, p: MpInt, q: MpInt, r: MpInt,
                      ghost na: bool, ghost nb: bool, ghost la: nat, ghost lb: nat) returns (w: MpInt)
    requires Signed(x, na) && Signed(y, na) && Signed(z, na) && Signed(p, nb) && Signed(q, nb) && Signed(r, nb)
    requires |x.dp| <= la && |y.dp| <= la && |z.dp| <= la && |p.dp| <= lb && |q.dp| <= lb && |r.dp| <= lb
    ensures fresh(w) && w.Normal()
    ensures na == nb || Exact(z.Mag() + 2 * y.Mag() + 4 * x.Mag(), r.Mag() + 2 * q.Mag() + 4 * p.Mag()) ==>
            w.Value() == Times(z.Value() + 2 * y.Value() + 4 * x.Value(), r.Value() + 2 * q.Value() + 4 * p.Value())
    decreases Least(la, lb) + 4, 4
  {
    hide *;
    LeastOfBoth(la, lb);
    w := new MpInt();
    var tmp1 := new MpInt();
    var tmp2 := new MpInt();
    PointAt(x, y, z, tmp1, na, la);
    PointAt(p, q, r, tmp2, nb, lb);
    MulSigned(tmp1, tmp2, w, na, nb, Least(la, lb) + 4);
  }

  lemma LeastOfBoth(x: nat, y: nat)
    ensures 0 <= Least(x, y)
    ensures forall u: nat, v: nat {:trigger Least(u, v)} :: u <= x + 4 && v <= y + 4 ==> Least(u, v) <= Least(x, y) + 4
  {
  }

  method SumProduct(x: MpInt, y: MpInt, z: MpInt, p: MpInt, q: MpInt, r: MpInt,
                    ghost na: bool, ghost nb: bool, ghost la: nat, ghost lb: nat) returns (w: MpInt)
    requires Signed(x, na) && Signed(y, na) && Signed(z, na) && Signed(p, nb) && Signed(q, nb) && Signed(r, nb)
    requires |x.dp| <= la && |y.dp| <= la && |z.dp| <= la && |p.dp| <= lb && |q.dp| <= lb && |r.dp| <= lb
    ensures fresh(w) && w.Normal()
    ensures na == nb || Exact(z.Mag() + y.Mag() + x.Mag(), r.Mag() + q.Mag() + p.Mag()) ==>
            w.Value() == Times(z.Value() + y.Value() + x.Value(), r.Value() + q.Value() + p.Value())
    decreases Least(la, lb) + 4, 4
  {
    hide *;
    LeastOfBoth(la, lb);
    w := new MpInt();
    var tmp1 := new MpInt();
    var tmp2 := new MpInt();
    SumAt(x, y, z, tmp1, na, la);
    SumAt(p, q, r, tmp2, nb, lb);
    MulSigned(tmp1, tmp2, w, na, nb, Least(la, lb) + 4);
  }

  method EndProduct(x: MpInt, p: MpInt, ghost na: bool, ghost nb: bool, ghost la: nat, ghost lb: nat) returns (w: MpInt)
    requires Signed(x, na) && Signed(p, nb) && |x.dp| <= la && |p.dp| <= lb
    ensures fresh(w) && w.Normal()
    ensures na == nb || Exact(x.Mag(), p.Mag()) ==> w.Value() == Times(x.Value(), p.Value())
    decreases Least(la, lb) + 4, 4
  {
    hide Eval;
    hide Times;
    hide Exact;
    w := new MpInt();
    MulSigned(x, p, w, na, nb, Least(la, lb) + 4);
  }

  /** w0 to w4: both operands evaluated and multiplied at five points. */
  method FiveProducts(a0: MpInt, a1: MpInt, a2: MpInt, b0: MpInt, b1: MpInt, b2: MpInt,
                      ghost na: bool, ghost nb: bool, ghost la: nat, ghost lb: nat)
    returns (w0: MpInt, w1: MpInt, w2: MpInt, w3: MpInt, w4: MpInt)
    requires Signed(a0, na) && Signed(a1, na) && Signed(a2, na) && Signed(b0, nb) && Signed(b1, nb) && Signed(b2, nb)
    requires |a0.dp| <= la && |a1.dp| <= la && |a2.dp| <= la && |b0.dp| <= lb && |b1.dp| <= lb && |b2.dp| <= lb
    ensures fresh(w0) && fresh(w1) && fresh(w2) && fresh(w3) && fresh(w4)
    ensures w0 != w1 && w0 != w2 && w0 != w3 && w0 != w4 && w1 != w2 && w1 != w3 && w1 != w4
    ensures w2 != w3 && w2 != w4 && w3 != w4
    ensures w0.Normal() && w1.Normal() && w2.Normal() && w3.Normal() && w4.Normal()
    ensures na == nb || PartsExact(a0.Mag(), a1.Mag(), a2.Mag(), b0.Mag(), b1.Mag(), b2.Mag()) ==>
            Evaluated(Times(a0.Value(), b0.Value()), C1(a0.Value(), a1.Value(), b0.Value(), b1.Value()),
                      C2(a0.Value(), a1.Value(), a2.Value(), b0.Value(), b1.Value(), b2.Value()),
                      C1(a1.Value(), a2.Value(), b1.Value(), b2.Value()), Times(a2.Value(), b2.Value()),
                      w0.Value(), w1.Value(), w2.Value(), w3.Value(), w4.Value())
    decreases Least(la, lb) + 4, 5
  {
    hide *;
    w0 := EndProduct(a0, b0, na, nb, la, lb);
    w4 := EndProduct(a2, b2, na, nb, la, lb);
    w1 := PointProduct(a0, a1, a2, b0, b1, b2, na, nb, la, lb);
    w3 := PointProduct(a2, a1, a0, b2, b1, b0, na, nb, la, lb);
    w2 := SumProduct(a0, a1, a2, b0, b1, b2, na, nb, la, lb);
    PartsExactIs(a0.Mag(), a1.Mag(), a2.Mag(), b0.Mag(), b1.Mag(), b2.Mag());
    ToomEvaluated(a0.Value(), a1.Value(), a2.Value(), b0.Value(), b1.Value(), b2.Value());
  }

  lemma C1WithSign(na: bool, nb: bool, x0: nat, x1: nat, y0: nat, y1: nat)
    ensures C1(WithSign(na, x0), WithSign(na, x1), WithSign(nb, y0), WithSign(nb, y1)) == WithSign(na != nb, C1(x0, x1, y0, y1))
    ensures C1(x0, x1, y0, y1) >= 0
    ensures C1(x0, x1, y0, y1) == 0 && x0 > 0 && y0 > 0 ==> x1 == 0 && y1 == 0
    ensures C1(x0, x1, y0, y1) == 0 && x1 > 0 && y1 > 0 ==> x0 == 0 && y0 == 0
    ensures x1 == 0 && y1 == 0 ==> C1(x0, x1, y0, y1) == 0
  {
    TimesWithSign(na, nb, x0, y1);
    TimesWithSign(na, nb, x1, y0);
    TimesIsPositive(x0, y1);
    TimesIsPositive(x1, y0);
  }

  lemma TimesIsPositive(x: nat, y: nat)
    ensures Times(x, y) >= 0 && (Times(x, y) == 0 <==> x == 0 || y == 0)
    ensures x > 0 ==> Times(x, y) >= y
    ensures y > 0 ==> Times(x, y) >= x
  {
    MulMonotone(0, x, y);
    if x > 0 {
      MulMonotone(1, x, y);
    }
    if y > 0 {
      MulMonotone(1, y, x);
    }
  }

  lemma C2WithSign(na: bool, nb: bool, x0: nat, x1: nat, x2: nat, y0: nat, y1: nat, y2: nat)
    ensures C2(WithSign(na, x0), WithSign(na, x1), WithSign(na, x2), WithSign(nb, y0), WithSign(nb, y1), WithSign(nb, y2))
         == WithSign(na != nb, C2(x0, x1, x2, y0, y1, y2))
    ensures C2(x0, x1, x2, y0, y1, y2) >= 0
    ensures x1 == 0 && y1 == 0 && C2(x0, x1, x2, y0, y1, y2) > 0 ==> C2(x0, x1, x2, y0, y1, y2) >= Least(x2, y2)
  {
    TimesWithSign(na, nb, x0, y2);
    TimesWithSign(na, nb, x1, y1);
    TimesWithSign(na, nb, x2, y0);
    TimesIsPositive(x0, y2);
    TimesIsPositive(x1, y1);
    TimesIsPositive(x2, y0);
  }

  /** A short number is a small one. */
  lemma ShortIsSmall(s: seq<Digit>, n: nat)
    requires Clamped(s) && n > 0
    ensures |s| < n <==> Eval(s) < Power(n - 1)
  {
    hide Eval;
    hide Power;
    if |s| < n {
      EvalBound(s);
      PowerGrows(|s|, n - 1);
    } else {
      ClampedBounds(s);
      PowerGrows(n - 1, |s| - 1);
    }
  }

  lemma SignedFromValue(w: MpInt, neg: bool, m: nat)
    requires w.Normal() && w.Value() == WithSign(neg, m)
    ensures Signed(w, neg) && w.Mag() == m && (w.dp == [] <==> m == 0) && w.neg == (neg && m > 0)
  {
    ClampedZero(w.dp);
  }

  /** Whether w0 is short against an empty w1, in terms of the operands' thirds; and w2
      is never short against an empty w3, because the upper thirds are long. */
  lemma ShortAgainstZero(w0: MpInt, w1: MpInt, w2: MpInt, w3: MpInt, neg: bool, n: nat,
                         u0: nat, u1: nat, u2: nat, v0: nat, v1: nat, v2: nat)
    requires w0.Normal() && w1.Normal() && w2.Normal() && w3.Normal() && n > 0
    requires w0.Value() == WithSign(neg, Times(u0, v0)) && w1.Value() == WithSign(neg, C1(u0, u1, v0, v1))
    requires w2.Value() == WithSign(neg, C2(u0, u1, u2, v0, v1, v2)) && w3.Value() == WithSign(neg, C1(u1, u2, v1, v2))
    requires u2 >= Power(n - 1) && v2 >= Power(n - 1)
    ensures Signed(w0, neg) && Signed(w1, neg) && Signed(w2, neg) && Signed(w3, neg)
    ensures w0.neg && w1.dp == [] && |w0.dp| < n <==> neg && u1 == 0 && v1 == 0 && 0 < Times(u0, v0) < Power(n - 1)
    ensures w2.neg && w3.dp == [] ==> |w2.dp| >= n
  {
    TimesIsPositive(u0, v0);
    C1WithSign(neg, neg, u0, u1, v0, v1);
    C1WithSign(neg, neg, u1, u2, v1, v2);
    C2WithSign(neg, neg, u0, u1, u2, v0, v1, v2);
    SignedFromValue(w0, neg, Times(u0, v0));
    SignedFromValue(w1, neg, C1(u0, u1, v0, v1));
    SignedFromValue(w2, neg, C2(u0, u1, u2, v0, v1, v2));
    SignedFromValue(w3, neg, C1(u1, u2, v1, v2));
    ShortIsSmall(w0.dp, n);
    ShortIsSmall(w2.dp, n);
    hide *;
    LeastIs(u2, v2);
  }
  /** The number whose three parts these are. */
  ghost function Joined(n: nat, neg: bool, u0: nat, u1: nat, u2: nat): int {
    WithSign(neg, u0) + Power(n) * WithSign(neg, u1) + Power(2 * n) * WithSign(neg, u2)
  }

  /** w0 to w4 hold the values of the product of two quadratics at the five points. */
  ghost predicate FromThirds(na: bool, nb: bool, u0: nat, u1: nat, u2: nat, v0: nat, v1: nat, v2: nat,
                             w0: int, w1: int, w2: int, w3: int, w4: int)
  {
    var x0, x1, x2 := WithSign(na, u0), WithSign(na, u1), WithSign(na, u2);
    var y0, y1, y2 := WithSign(nb, v0), WithSign(nb, v1), WithSign(nb, v2);
    Evaluated(Times(x0, y0), C1(x0, x1, y0, y1), C2(x0, x1, x2, y0, y1, y2), C1(x1, x2, y1, y2), Times(x2, y2),
              w0, w1, w2, w3, w4)
  }

  /** The interpolated numbers can be added up, and which of them are short. */
  lemma Interpolated(w0: MpInt, w1: MpInt, w2: MpInt, w3: MpInt, w4: MpInt, n: nat, na: bool, nb: bool,
                     u0: nat, u1: nat, u2: nat, v0: nat, v1: nat, v2: nat)
    requires w0.Normal() && w1.Normal() && w2.Normal() && w3.Normal() && w4.Normal() && n > 0
    requires u2 >= Power(n - 1) && v2 >= Power(n - 1)
    requires var x0, x1, x2 := WithSign(na, u0), WithSign(na, u1), WithSign(na, u2);
             var y0, y1, y2 := WithSign(nb, v0), WithSign(nb, v1), WithSign(nb, v2);
             && w0.Value() == Times(x0, y0) && w1.Value() == C1(x0, x1, y0, y1) && w2.Value() == C2(x0, x1, x2, y0, y1, y2)
             && w3.Value() == C1(x1, x2, y1, y2) && w4.Value() == Times(x2, y2)
    ensures Mergeable(w0, w1, w2, w3, w4, n, na != nb)
    ensures w0.neg && w1.dp == [] && |w0.dp| < n
            <==> na != nb && u1 == 0 && v1 == 0 && 0 < Times(u0, v0) < Power(n - 1)
  {
    hide Power;
    hide Times;
    hide C1;
    hide C2;
    hide WithSign;
    hide Signed;
    var neg := na != nb;
    TimesWithSign(na, nb, u0, v0);
    TimesWithSign(na, nb, u2, v2);
    C1WithSign(na, nb, u0, u1, v0, v1);
    C1WithSign(na, nb, u1, u2, v1, v2);
    C2WithSign(na, nb, u0, u1, u2, v0, v1, v2);
    TimesIsPositive(u2, v2);
    SignedFromValue(w4, neg, Times(u2, v2));
    ShortAgainstZero(w0, w1, w2, w3, neg, n, u0, u1, u2, v0, v1, v2);
  }

  lemma ToomJoined(n: nat, na: bool, nb: bool, u0: nat, u1: nat, u2: nat, v0: nat, v1: nat, v2: nat)
    ensures var x0, x1, x2 := WithSign(na, u0), WithSign(na, u1), WithSign(na, u2);
            var y0, y1, y2 := WithSign(nb, v0), WithSign(nb, v1), WithSign(nb, v2);
            Times(Joined(n, na, u0, u1, u2), Joined(n, nb, v0, v1, v2))
            == Times(x0, y0) + C1(x0, x1, y0, y1) * Power(n) + C2(x0, x1, x2, y0, y1, y2) * Power(2 * n)
               + C1(x1, x2, y1, y2) * Power(3 * n) + Times(x2, y2) * Power(4 * n)
  {
    ToomValue(n, WithSign(na, u0), WithSign(na, u1), WithSign(na, u2), WithSign(nb, v0), WithSign(nb, v1), WithSign(nb, v2));
  }

  /** From the five values to the product, over-large by b^n in one family of cases. */
  method Finish(w0: MpInt, w1: MpInt, w2: MpInt, w3: MpInt, w4: MpInt, c: MpInt, n: nat, ghost na: bool, ghost nb: bool,
                ghost u0: nat, ghost u1: nat, ghost u2: nat, ghost v0: nat, ghost v1: nat, ghost v2: nat)
    requires w0 != w1 && w0 != w2 && w0 != w3 && w0 != w4 && w1 != w2 && w1 != w3 && w1 != w4
    requires w2 != w3 && w2 != w4 && w3 != w4 && c != w0 && c != w1 && c != w2 && c != w3 && c != w4
    requires w0.Normal() && w1.Normal() && w2.Normal() && w3.Normal() && w4.Normal() && n > 0
    requires u2 >= Power(n - 1) && v2 >= Power(n - 1)
    modifies w1, w2, w3, w4, c
    ensures c.Normal()
    ensures old(FromThirds(na, nb, u0, u1, u2, v0, v1, v2, w0.Value(), w1.Value(), w2.Value(), w3.Value(), w4.Value())) ==>
            c.Value() == Times(Joined(n, na, u0, u1, u2), Joined(n, nb, v0, v1, v2))
                         + if na != nb && u1 == 0 && v1 == 0 && 0 < Times(u0, v0) < Power(n - 1) then Power(n) else 0
  {
    hide Eval;
    hide Power;
    hide Times;
    hide C1;
    hide C2;
    hide WithSign;
    hide Clamped;
    hide Mergeable;
    hide Joined;
    ghost var x0, x1, x2 := WithSign(na, u0), WithSign(na, u1), WithSign(na, u2);
    ghost var y0, y1, y2 := WithSign(nb, v0), WithSign(nb, v1), WithSign(nb, v2);
    ghost var right := FromThirds(na, nb, u0, u1, u2, v0, v1, v2, w0.Value(), w1.Value(), w2.Value(), w3.Value(), w4.Value());
    if right {
      EvaluatedEnds(Times(x0, y0), C1(x0, x1, y0, y1), C2(x0, x1, x2, y0, y1, y2), C1(x1, x2, y1, y2), Times(x2, y2),
                    w0.Value(), w1.Value(), w2.Value(), w3.Value(), w4.Value());
    }
    hide Evaluated;
    var tmp := new MpInt();
    Interpolate(w0, w1, w2, w3, w4, tmp,
                Times(x0, y0), C1(x0, x1, y0, y1), C2(x0, x1, x2, y0, y1, y2), C1(x1, x2, y1, y2), Times(x2, y2));
    if right {
      Interpolated(w0, w1, w2, w3, w4, n, na, nb, u0, u1, u2, v0, v1, v2);
    }
    ToomJoined(n, na, nb, u0, u1, u2, v0, v1, v2);
    Recombine(w0, w1, w2, w3, w4, tmp, c, n, na != nb);
  }

  lemma EvaluatedEnds(c0: int, c1: int, c2: int, c3: int, c4: int, w0: int, w1: int, w2: int, w3: int, w4: int)
    requires Evaluated(c0, c1, c2, c3, c4, w0, w1, w2, w3, w4)
    ensures w0 == c0 && w4 == c4
  {
  }

  /** x's three parts, as magnitudes. */
  ghost predicate SplitAs(s: seq<Digit>, n: nat, u0: nat, u1: nat, u2: nat)
    requires 3 * n <= |s| && n > 0
  {
    && u0 == Eval(s[..n]) && u1 == Eval(s[n..2 * n]) && u2 == Eval(s[2 * n..]) && u2 >= Power(n - 1)
  }

  /** The five products inside are right for operands of different signs too. */
  ghost predicate PartsExact(u0: nat, u1: nat, u2: nat, v0: nat, v1: nat, v2: nat) {
    && Exact(u0, v0) && Exact(u2, v2)
    && Exact(u2 + 2 * u1 + 4 * u0, v2 + 2 * v1 + 4 * v0)
    && Exact(u2 + u1 + u0, v2 + v1 + v0)
    && Exact(u0 + 2 * u1 + 4 * u2, v0 + 2 * v1 + 4 * v2)
  }

  lemma PartsExactIs(u0: nat, u1: nat, u2: nat, v0: nat, v1: nat, v2: nat)
    ensures PartsExact(u0, u1, u2, v0, v1, v2) <==>
      && Exact(u0, v0) && Exact(u2, v2)
      && Exact(u2 + 2 * u1 + 4 * u0, v2 + 2 * v1 + 4 * v0)
      && Exact(u2 + u1 + u0, v2 + v1 + v0)
      && Exact(u0 + 2 * u1 + 4 * u2, v0 + 2 * v1 + 4 * v2)
  {
  }

  /** The split and the five products. */
  method ToomProducts(a: MpInt, b: MpInt, n: nat)
    returns (w0: MpInt, w1: MpInt, w2: MpInt, w3: MpInt, w4: MpInt,
             ghost u0: nat, ghost u1: nat, ghost u2: nat, ghost v0: nat, ghost v1: nat, ghost v2: nat)
    requires a.Normal() && b.Normal() && Least(|a.dp|, |b.dp|) >= TOOM_MUL_CUTOFF && n == Least(|a.dp|, |b.dp|) / 3
    ensures fresh(w0) && fresh(w1) && fresh(w2) && fresh(w3) && fresh(w4)
    ensures w0 != w1 && w0 != w2 && w0 != w3 && w0 != w4 && w1 != w2 && w1 != w3 && w1 != w4
    ensures w2 != w3 && w2 != w4 && w3 != w4
    ensures w0.Normal() && w1.Normal() && w2.Normal() && w3.Normal() && w4.Normal()
    ensures SplitAs(a.dp, n, u0, u1, u2) && SplitAs(b.dp, n, v0, v1, v2)
    ensures a.Value() == Joined(n, a.neg, u0, u1, u2) && b.Value() == Joined(n, b.neg, v0, v1, v2)
    ensures a.neg == b.neg || PartsExact(u0, u1, u2, v0, v1, v2)
            ==> FromThirds(a.neg, b.neg, u0, u1, u2, v0, v1, v2, w0.Value(), w1.Value(), w2.Value(), w3.Value(), w4.Value())
    decreases Least(|a.dp|, |b.dp|), 0
  {
    ThirdLengths(|a.dp|, |b.dp|);
    hide *;
    ghost var na, nb := a.neg, b.neg;
    var a0, a1, a2 := Thirds(a, n);
    var b0, b1, b2 := Thirds(b, n);
    ThirdsFacts(a0, a1, a2, a.dp, n, na);
    ThirdsFacts(b0, b1, b2, b.dp, n, nb);
    u0, u1, u2 := a0.Mag(), a1.Mag(), a2.Mag();
    v0, v1, v2 := b0.Mag(), b1.Mag(), b2.Mag();
    SplitIs(a.dp, n, u0, u1, u2);
    SplitIs(b.dp, n, v0, v1, v2);
    JoinedIs(n, na, u0, u1, u2);
    JoinedIs(n, nb, v0, v1, v2);
    w0, w1, w2, w3, w4 := FiveProducts(a0, a1, a2, b0, b1, b2, na, nb, |a2.dp|, |b2.dp|);
    FromThirdsIs(na, nb, u0, u1, u2, v0, v1, v2, w0.Value(), w1.Value(), w2.Value(), w3.Value(), w4.Value());
  }

  lemma JoinedIs(n: nat, neg: bool, u0: nat, u1: nat, u2: nat)
    ensures Joined(n, neg, u0, u1, u2)
         == WithSign(neg, u0) + Power(n) * WithSign(neg, u1) + Power(2 * n) * WithSign(neg, u2)
  {
  }

  lemma SplitIs(s: seq<Digit>, n: nat, u0: nat, u1: nat, u2: nat)
    requires 3 * n <= |s| && n > 0
    ensures SplitAs(s, n, u0, u1, u2) <==>
      u0 == Eval(s[..n]) && u1 == Eval(s[n..2 * n]) && u2 == Eval(s[2 * n..]) && u2 >= Power(n - 1)
  {
  }

  /** The parts by digits are the parts by division, and the family that is missed is the same. */
  lemma PartsOfNumber(s: seq<Digit>, n: nat, u0: nat, u1: nat, u2: nat)
    requires 3 * n <= |s| && n > 0 && SplitAs(s, n, u0, u1, u2)
    ensures u0 == Low(Eval(s), n) && u1 == Mid(Eval(s), n) && u2 == High(Eval(s), n)
  {
    hide *;
    SplitIs(s, n, u0, u1, u2);
    SplitByDivision(s, n);
    SplitByDivision(s[n..], n);
    SplitByDivision(s, 2 * n);
    assert s[n..][..n] == s[n..2 * n];
    LowIs(Eval(s), n);
  }

  lemma SplitByDivision(s: seq<Digit>, n: nat)
    requires n <= |s|
    ensures Eval(s) % Power(n) == Eval(s[..n]) && Eval(s) / Power(n) == Eval(s[n..])
  {
    hide Eval;
    hide Power;
    EvalSplit(s, n);
    EvalBound(s[..n]);
    DivModUnique(Eval(s), Power(n), Eval(s[n..]), Eval(s[..n]));
  }

  lemma LowIs(v: nat, n: nat)
    ensures Low(v, n) == v % Power(n) && Mid(v, n) == v / Power(n) % Power(n) && High(v, n) == v / Power(2 * n)
  {
  }

  lemma InnerIs(a: seq<Digit>, b: seq<Digit>, n: nat, u0: nat, u1: nat, u2: nat, v0: nat, v1: nat, v2: nat)
    requires Clamped(a) && Clamped(b) && Least(|a|, |b|) >= TOOM_MUL_CUTOFF && n == Least(|a|, |b|) / 3
    requires 3 * n <= |a| && 3 * n <= |b| && n > 0
    requires SplitAs(a, n, u0, u1, u2) && SplitAs(b, n, v0, v1, v2)
    ensures Shorter(Eval(a), Eval(b)) == Least(|a|, |b|)
    ensures InnerExact(Eval(a), Eval(b)) <==> PartsExact(u0, u1, u2, v0, v1, v2)
    ensures Misses(Eval(a), Eval(b)) <==> ToomMisses(a, b)
  {
    hide *;
    LeastOf(|a|, |b|);
    MissesOf(a, b, n, u0, u1, u2, v0, v1, v2);
    ShorterOfDigits(a, b);
    PartsOfNumber(a, n, u0, u1, u2);
    PartsOfNumber(b, n, v0, v1, v2);
    InnerUnfolds(Eval(a), Eval(b));
    PartsExactIs(u0, u1, u2, v0, v1, v2);
  }

  lemma LeastOf(x: nat, y: nat)
    ensures Least(x, y) == if x <= y then x else y
  {
  }

  lemma MissesOf(a: seq<Digit>, b: seq<Digit>, n: nat, u0: nat, u1: nat, u2: nat, v0: nat, v1: nat, v2: nat)
    requires n == Least(|a|, |b|) / 3 && n > 0 && 3 * n <= |a| && 3 * n <= |b|
    requires SplitAs(a, n, u0, u1, u2) && SplitAs(b, n, v0, v1, v2)
    ensures ToomMisses(a, b) <==> u1 == 0 && v1 == 0 && 0 < u0 * v0 < Power(n - 1)
  {
  }

  /** mp_toom_mul. */
  method ToomMul(a: MpInt, b: MpInt, c: MpInt)
    requires a.Normal() && b.Normal() && Least(|a.dp|, |b.dp|) >= TOOM_MUL_CUTOFF
    modifies c
    ensures c.Normal()
    ensures Shorter(old(a.Mag()), old(b.Mag())) >= TOOM_MUL_CUTOFF
    ensures old(a.neg == b.neg) || InnerExact(old(a.Mag()), old(b.Mag())) ==>
            c.Value() == Times(old(a.Value()), old(b.Value()))
                         + if old(a.neg != b.neg) && ToomMisses(old(a.dp), old(b.dp))
                           then Power(Least(|old(a.dp)|, |old(b.dp)|) / 3) else 0
    decreases Least(|a.dp|, |b.dp|), 1
  {
    var n := Least(|a.dp|, |b.dp|) / 3;
    ThirdLengths(|a.dp|, |b.dp|);
    hide *;
    var w0, w1, w2, w3, w4, u0, u1, u2, v0, v1, v2 := ToomProducts(a, b, n);
    MissesIs(a.dp, b.dp, n, u0, u1, u2, v0, v1, v2);
    NormalIs(a);
    NormalIs(b);
    InnerIs(a.dp, b.dp, n, u0, u1, u2, v0, v1, v2);
    Finish(w0, w1, w2, w3, w4, c, n, a.neg, b.neg, u0, u1, u2, v0, v1, v2);
  }

  lemma NormalIs(x: MpInt)
    ensures x.Mag() == Eval(x.dp) && (x.Normal() ==> Clamped(x.dp))
  {
  }

  lemma FromThirdsIs(na: bool, nb: bool, u0: nat, u1: nat, u2: nat, v0: nat, v1: nat, v2: nat,
                     w0: int, w1: int, w2: int, w3: int, w4: int)
    ensures FromThirds(na, nb, u0, u1, u2, v0, v1, v2, w0, w1, w2, w3, w4) <==>
      var x0, x1, x2 := WithSign(na, u0), WithSign(na, u1), WithSign(na, u2);
      var y0, y1, y2 := WithSign(nb, v0), WithSign(nb, v1), WithSign(nb, v2);
      Evaluated(Times(x0, y0), C1(x0, x1, y0, y1), C2(x0, x1, x2, y0, y1, y2), C1(x1, x2, y1, y2), Times(x2, y2),
                w0, w1, w2, w3, w4)
  {
  }

  lemma ThirdLengths(la: nat, lb: nat)
    requires Least(la, lb) >= TOOM_MUL_CUTOFF
    ensures var n := Least(la, lb) / 3;
            && n > 0 && 3 * n <= la && 3 * n <= lb
            && Least(la - 2 * n, lb - 2 * n) + 4 < Least(la, lb)
  {
  }

  lemma MissesIs(a: seq<Digit>, b: seq<Digit>, n: nat, u0: nat, u1: nat, u2: nat, v0: nat, v1: nat, v2: nat)
    requires n == Least(|a|, |b|) / 3 && n > 0 && 3 * n <= |a| && 3 * n <= |b|
    requires SplitAs(a, n, u0, u1, u2) && SplitAs(b, n, v0, v1, v2)
    ensures ToomMisses(a, b) <==> u1 == 0 && v1 == 0 && 0 < Times(u0, v0) < Power(n - 1)
    ensures u2 >= Power(n - 1) && v2 >= Power(n - 1)
  {
  }

  lemma ThirdsFacts(x0: MpInt, x1: MpInt, x2: MpInt, s: seq<Digit>, n: nat, neg: bool)
    requires Signed(x0, neg) && Signed(x1, neg) && Signed(x2, neg)
    requires 0 < n && 3 * n <= |s| && x2.dp == s[2 * n..] && |x0.dp| <= n && |x1.dp| <= n
    ensures x0.Value() == WithSign(neg, x0.Mag()) && x1.Value() == WithSign(neg, x1.Mag())
    ensures x2.Mag() >= Power(n - 1) && x2.Value() == WithSign(neg, x2.Mag()) && |x2.dp| == |s| - 2 * n
    ensures |x0.dp| <= |x2.dp| && |x1.dp| <= |x2.dp| && x2.Mag() == Eval(s[2 * n..])
  {
    hide Eval;
    hide Power;
    ClampedBounds(x2.dp);
    PowerGrows(n - 1, |x2.dp| - 1);
    SignedValue(x0, neg);
    SignedValue(x1, neg);
    SignedValue(x2, neg);
  }

  /** mp_mul. Operands of one sign are multiplied exactly. Operands of different signs are when
      their magnitudes are Exact, which they always are below the Toom-Cook cutoff. As long as the
      products inside Toom-Cook are right, the result is right exactly when ToomMisses does not
      hold, and b^n too large otherwise. */
  method Mul(a: MpInt, b: MpInt, c: MpInt)
    requires a.Normal() && b.Normal()
    modifies c
    ensures c.Normal()
    ensures old(a.neg == b.neg || Least(|a.dp|, |b.dp|) < TOOM_MUL_CUTOFF) || Exact(old(a.Mag()), old(b.Mag()))
            ==> c.Value() == old(a.Value()) * old(b.Value())
    ensures old(a.neg != b.neg && Least(|a.dp|, |b.dp|) >= TOOM_MUL_CUTOFF)
            ==> Shorter(old(a.Mag()), old(b.Mag())) >= TOOM_MUL_CUTOFF
    ensures old(a.neg != b.neg && Least(|a.dp|, |b.dp|) >= TOOM_MUL_CUTOFF) && InnerExact(old(a.Mag()), old(b.Mag()))
            ==> c.Value() == old(a.Value()) * old(b.Value())
                          + if ToomMisses(old(a.dp), old(b.dp)) then Power(Least(|old(a.dp)|, |old(b.dp)|) / 3) else 0
    decreases Least(|a.dp|, |b.dp|), 2
  {
    ghost var n := Least(|a.dp|, |b.dp|) / 3;
    ghost var u, v, neg' := a.Value(), b.Value(), a.neg != b.neg;
    ghost var misses := ToomMisses(a.dp, b.dp);
    SignedProducts(a, b);
    hide Eval;
    hide Power;
    hide Times;
    hide ToomMisses;
    hide Exact;
    hide InnerExact;
    hide Shorter;
    var neg := a.neg != b.neg;
    if Least(|a.dp|, |b.dp|) >= TOOM_MUL_CUTOFF {
      LargeProduct(a, b, n);
      ExactIs(a.dp, b.dp);
      ToomMul(a, b, c);
      TimesIs(u, v);
    } else if Least(|a.dp|, |b.dp|) >= KARATSUBA_MUL_CUTOFF {
      KaratsubaMul(a, b, c);
    } else {
      MulPlain(a, b, c);
    }
    ClampedZero(c.dp);
    c.neg := |c.dp| > 0 && neg;
  }

  lemma ExactIs(a: seq<Digit>, b: seq<Digit>)
    requires Clamped(a) && Clamped(b) && Least(|a|, |b|) >= TOOM_MUL_CUTOFF
    ensures Shorter(Eval(a), Eval(b)) == Least(|a|, |b|)
    ensures Exact(Eval(a), Eval(b)) <==> InnerExact(Eval(a), Eval(b)) && !ToomMisses(a, b)
  {
    ThirdLengths(|a|, |b|);
    var n := Least(|a|, |b|) / 3;
    TopThird(a, n);
    TopThird(b, n);
    hide *;
    InnerIs(a, b, n, Eval(a[..n]), Eval(a[n..2 * n]), Eval(a[2 * n..]), Eval(b[..n]), Eval(b[n..2 * n]), Eval(b[2 * n..]));
    InnerUnfolds(Eval(a), Eval(b));
  }

  lemma TopThird(s: seq<Digit>, n: nat)
    requires Clamped(s) && 0 < n && 3 * n <= |s|
    ensures SplitAs(s, n, Eval(s[..n]), Eval(s[n..2 * n]), Eval(s[2 * n..]))
  {
    hide Eval;
    hide Power;
    ClampedBounds(s[2 * n..]);
    PowerGrows(n - 1, |s| - 2 * n - 1);
  }

  lemma TimesIs(x: int, y: int)
    ensures Times(x, y) == x * y
  {
  }

  /** The product's magnitude and sign. */
  lemma SignedProducts(a: MpInt, b: MpInt)
    ensures a.Value() * b.Value() == if a.neg != b.neg then -(a.Mag() * b.Mag()) else a.Mag() * b.Mag()
    ensures Times(a.Mag(), b.Mag()) == a.Mag() * b.Mag() >= 0
  {
    TimesWithSign(a.neg, b.neg, a.Mag(), b.Mag());
    MulMonotone(0, a.Mag(), b.Mag());
  }

  /** b^n does not change the sign of a product this long. */
  lemma LargeProduct(a: MpInt, b: MpInt, n: nat)
    requires a.Normal() && b.Normal() && n < |a.dp| && |b.dp| > 0
    ensures a.Mag() * b.Mag() >= Power(n)
  {
    hide Eval;
    hide Power;
    ClampedBounds(a.dp);
    ClampedZero(b.dp);
    PowerGrows(n, |a.dp| - 1);
    MulMonotone(1, b.Mag(), a.Mag());
  }

  // -------------------------------------------------- the operands that go wrong

  /** R^349 + 1: 350 digits, the first and the last of them 1. */
  function Sparse(): seq<Digit> {
    [1] + Zeros(348) + [1]
  }

  lemma SparseThirds()
    ensures Eval(Sparse()[..116]) == 1 && Eval(Sparse()[116..232]) == 0
  {
    hide Eval;
    var s, z := Sparse(), Zeros(348);
    assert s[..116] == [1] + z[..115] && s[116..232] == z[115..231];
    hide Sparse;
    EvalZeros(z[115..231]);
    EvalZeros(z[..115]);
    EvalCons(1, z[..115]);
  }

  lemma SparseMisses()
    ensures |Sparse()| == 350 && Clamped(Sparse()) && ToomMisses(Sparse(), Sparse())
  {
    assert |Sparse()| == 350 && Clamped(Sparse());
    hide Eval;
    hide Sparse;
    hide Power;
    SparseThirds();
    PowerGrows(1, 115);
    SmallPowers();
    assert Least(350, 350) / 3 == 116;
  }

  /** -(R^349 + 1) times R^349 + 1 comes out too large by R^116. */
  method WrongProduct() returns (a: MpInt, b: MpInt, c: MpInt)
    ensures a.Normal() && b.Normal() && c.Normal()
    ensures a.dp == Sparse() && a.neg && b.dp == Sparse() && !b.neg
    ensures c.Value() == a.Value() * b.Value() + Power(116) && c.Value() != a.Value() * b.Value()
  {
    SparseMisses();
    hide Eval;
    hide Power;
    hide ToomMisses;
    a := new MpInt();
    b := new MpInt();
    c := new MpInt();
    a.dp, a.neg := Sparse(), true;
    b.dp := Sparse();
    DigitsLength(Sparse());
    OneLevelIsInnerExact(Eval(Sparse()), Eval(Sparse()));
    Mul(a, b, c);
  }
}
