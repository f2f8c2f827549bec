/** The digit loops of multiplication: by columns with delayed carries, and row by row. */
module Products {
  import opened Arith
  import opened Digits
  import opened DigitLoops
  import opened Columns

  const WARRAY := 512        // MP_WARRAY
  const MAX_COLUMN := 256    // products of digits a 64-bit accumulator can hold
  const CARRY_LIMIT := 0x10_0000_0000

  lemma AccumulatorFits(n: nat, pairs: nat, carry: nat)
    requires n <= MAX_COLUMN && pairs <= n * ((RADIX - 1) * (RADIX - 1)) && carry < CARRY_LIMIT
    ensures pairs + carry < 0x1_0000_0000_0000_0000
  {
    MulMonotone(n, MAX_COLUMN, (RADIX - 1) * (RADIX - 1));
  }

  /** The inner loop of a column: the accumulator never overflows. */
  method AddPairs(a: seq<Digit>, b: seq<Digit>, tx: nat, ty: int, iy: nat, carry: Word) returns (acc: Word)
    requires tx + iy <= |a| && iy <= ty + 1 <= |b| && iy <= MAX_COLUMN && carry < CARRY_LIMIT
    ensures acc == carry + Pairs(a, b, tx, ty, iy)
  {
    hide Pairs;
    PairsBound(a, b, tx, ty, iy);
    AccumulatorFits(iy, Pairs(a, b, tx, ty, iy), carry);
    acc := carry;
    var iz := 0;
    while iz < iy
      invariant iz <= iy
      invariant acc + Pairs(a, b, tx + iz, ty - iz, iy - iz) == carry + Pairs(a, b, tx, ty, iy)
    {
      PairsStep(a, b, tx + iz, ty - iz, iy - iz);
      var x: Word, y: Word := a[tx + iz], b[ty - iz];
      acc := acc + x * y;
      iz := iz + 1;
    }
    PairsNone(a, b, tx + iy, ty - iy);
  }

  lemma PairsStep(a: seq<Digit>, b: seq<Digit>, x: nat, y: int, n: nat)
    requires x + n <= |a| && 0 < n <= y + 1 <= |b|
    ensures Pairs(a, b, x, y, n) == a[x] * b[y] + Pairs(a, b, x + 1, y - 1, n - 1)
  {
  }

  lemma PairsNone(a: seq<Digit>, b: seq<Digit>, x: nat, y: int)
    requires x <= |a| && -1 <= y < |b|
    ensures Pairs(a, b, x, y, 0) == 0
  {
  }

  /** Where the walk of column k starts and how long it is. */
  lemma WalkFits(a: seq<Digit>, b: seq<Digit>, k: nat)
    requires k < |a| + |b| && Least(|a|, |b|) <= MAX_COLUMN
    ensures var y := Least(|b| - 1, k); var n := Least(|a| - (k - y), y + 1);
            k - y >= 0 && 0 <= n <= MAX_COLUMN && k - y + n <= |a| && n <= y + 1 <= |b|
  {
  }

  /** The sum of column k with the carry from below. */
  method AddColumn(a: seq<Digit>, b: seq<Digit>, ix: nat, carry: Word) returns (acc: Word)
    requires ix < |a| + |b| && Least(|a|, |b|) <= MAX_COLUMN && carry < CARRY_LIMIT
    ensures acc == carry + Column(a, b, ix)
  {
    hide *;
    WalkFits(a, b, ix);
    ColumnIsPairs(a, b, ix);
    var ty := Least(|b| - 1, ix);
    var tx := ix - ty;
    var iy := Least(|a| - tx, ty + 1);
    acc := AddPairs(a, b, tx, ty, iy, carry);
  }

  /** Storing one column and carrying the rest. */
  lemma StoreColumn(w: seq<Digit>, acc: nat, carry: nat, column: nat, sum: nat)
    requires acc == carry + column && Eval(w) + Power(|w|) * carry == sum
    ensures Eval(w + [acc % RADIX]) + Power(|w| + 1) * (acc / RADIX) == sum + Power(|w|) * column
  {
    hide *;
    CarryStep(w, acc);
    Distribute3(Power(|w|), carry, column, 0);
  }

  lemma ProductModulo(a: seq<Digit>, b: seq<Digit>, digs: nat, c: seq<Digit>, carry: nat)
    requires |c| == Least(digs, |a| + |b|) && Eval(c) + Power(|c|) * carry == ColumnSum(a, b, |c|)
    ensures Eval(c) == Eval(a) * Eval(b) % Power(digs)
  {
    LeastIs(digs, |a| + |b|);
    hide *;
    var v, p := Eval(a) * Eval(b), Power(|c|);
    var rest := Convolution(a, b, |c|);
    EvalBound(c);
    if |c| == digs {
      ModuloOfSum(v, p, carry, rest, Eval(c));
    } else {
      ProductBelow(a, b);
      NoCarry(p, carry, Eval(c), v);
      PowerGrows(|c|, digs);
      ModuloIs(v, Power(digs), 0, v);
    }
  }

  lemma ModuloOfSum(v: nat, p: nat, x: nat, y: nat, r: nat)
    requires v == r + p * x + p * y && r < p
    ensures v % p == r
  {
    assert p * (x + y) == p * x + p * y;
    DivModUnique(v, p, x + y, r);
  }

  lemma ModuloIs(v: nat, p: nat, q: nat, r: nat)
    requires v == r + p * q && r < p
    ensures v % p == r
  {
    DivModUnique(v, p, q, r);
  }

  lemma NoCarry(p: nat, carry: nat, low: nat, total: nat)
    requires total == low + p * carry && total < p
    ensures carry == 0 && p * carry == 0
  {
    if carry >= 1 {
      MulMonotone(1, carry, p);
    }
  }

  /** fast_s_mp_mul_digs: the low digs digits of the product. */
  method FastMulDigs(a: seq<Digit>, b: seq<Digit>, digs: nat) returns (c: seq<Digit>)
    requires Least(|a|, |b|) <= MAX_COLUMN && digs < WARRAY
    ensures Eval(c) == Eval(a) * Eval(b) % Power(digs) && |c| == Least(digs, |a| + |b|)
  {
    var pa := Least(digs, |a| + |b|);
    var W := new Digit[WARRAY];
    hide *;
    LeastIs(digs, |a| + |b|);
    ColumnSumNone(a, b);
    SmallPowers();
    EvalNone();
    var acc: Word := 0;
    var ix := 0;
    assert W[..0] == [];
    while ix < pa
      invariant ix <= pa && acc < CARRY_LIMIT
      invariant Eval(W[..ix]) + Power(ix) * acc == ColumnSum(a, b, ix)
    {
      ghost var w := W[..ix];
      var sum := AddColumn(a, b, ix, acc);
      StoreColumn(w, sum, acc, Column(a, b, ix), ColumnSum(a, b, ix));
      ColumnSumStep(a, b, ix);
      W[ix] := sum % RADIX;
      acc := sum / RADIX;
      assert W[..ix + 1] == w + [sum % RADIX];
      ix := ix + 1;
    }
    c := W[..pa];
    ProductModulo(a, b, digs, c, acc);
  }

  /** The sum of column k of a square with the carry from below: half the pairs are
      added up, doubled, and joined by the square of the middle digit. */
  method AddSquareColumn(a: seq<Digit>, ix: nat, carry: Word) returns (acc: Word)
    requires ix < 2 * |a| && |a| <= MAX_COLUMN && carry < CARRY_LIMIT
    ensures acc == carry + Column(a, a, ix)
  {
    hide *;
    var ty := Least(|a| - 1, ix);
    var tx := ix - ty;
    var iy := Least(|a| - tx, ty + 1);
    SquareColumn(a, ix);
    ColumnIsPairs(a, a, ix);
    LeastIs(|a| - 1, ix);
    LeastIs(|a| - tx, ty + 1);
    PairsBound(a, a, tx, ty, iy);
    AccumulatorFits(iy, Column(a, a, ix), carry);
    iy := Least(iy, (ty - tx + 1) / 2);
    LeastIs(2 * iy, iy);
    HalfIsLess(ty - tx + 1);
    var half := AddPairs(a, a, tx, ty, iy, 0);
    acc := half + half + carry;
    if ix % 2 == 0 {
      var d: Word := a[ix / 2];
      acc := acc + d * d;
    }
  }

  lemma HalfIsLess(n: nat)
    ensures Least(n, n / 2) == n / 2
  {
  }

  /** fast_s_mp_sqr. */
  method FastSqr(a: seq<Digit>) returns (c: seq<Digit>)
    requires |a| <= MAX_COLUMN - 1
    ensures Eval(c) == Eval(a) * Eval(a) && |c| == 2 * |a|
  {
    var pa := |a| + |a|;
    var W := new Digit[WARRAY];
    hide *;
    ColumnSumNone(a, a);
    SmallPowers();
    EvalNone();
    var w1: Word := 0;
    var ix := 0;
    assert W[..0] == [];
    while ix < pa
      invariant ix <= pa && w1 < CARRY_LIMIT
      invariant Eval(W[..ix]) + Power(ix) * w1 == ColumnSum(a, a, ix)
    {
      ghost var w := W[..ix];
      var sum := AddSquareColumn(a, ix, w1);
      StoreColumn(w, sum, w1, Column(a, a, ix), ColumnSum(a, a, ix));
      ColumnSumStep(a, a, ix);
      W[ix] := sum % RADIX;
      w1 := sum / RADIX;
      assert W[..ix + 1] == w + [sum % RADIX];
      ix := ix + 1;
    }
    c := W[..pa];
    LeastIs(pa, pa);
    ProductModulo(a, a, pa, c, w1);
    ProductBelow(a, a);
    DivModUnique(Eval(a) * Eval(a), Power(pa), 0, Eval(a) * Eval(a));
  }

  /** v holds the columns of a * b from digs up; below digs it may hold anything. */
  ghost predicate HighProduct(a: seq<Digit>, b: seq<Digit>, digs: nat, v: int) {
    0 <= v - (Eval(a) * Eval(b) - ColumnSum(a, b, digs)) < Power(digs)
  }

  /** fast_s_mp_mul_high_digs: digits below digs keep whatever c held before. */
  method FastMulHighDigs(a: seq<Digit>, b: seq<Digit>, before: seq<Digit>, digs: nat) returns (c: seq<Digit>)
    requires |a| + |b| < WARRAY && Least(|a|, |b|) <= MAX_COLUMN
    ensures |c| == |a| + |b| && HighProduct(a, b, digs, Eval(c))
  {
    var pa := |a| + |b|;
    var W := new Digit[WARRAY];
    hide *;
    SmallPowers();
    EvalNone();
    var acc: Word := 0;
    var stale := before + Zeros(digs);
    if pa <= digs {
      c := stale[..pa];
      NothingHigh(a, b, digs, c);
      return;
    }
    var ix := digs;
    assert W[digs..digs] == [];
    while ix < pa
      invariant digs <= ix <= pa && acc < CARRY_LIMIT
      invariant Power(digs) * Eval(W[digs..ix]) + Power(ix) * acc == ColumnSum(a, b, ix) - ColumnSum(a, b, digs)
    {
      ghost var w := W[digs..ix];
      var sum := AddColumn(a, b, ix, acc);
      StoreHighColumn(w, digs, sum, acc, Column(a, b, ix));
      ColumnSumStep(a, b, ix);
      W[ix] := sum % RADIX;
      acc := sum / RADIX;
      assert W[digs..ix + 1] == w + [sum % RADIX];
      ix := ix + 1;
    }
    c := stale[..digs] + W[digs..pa];
    AllHigh(a, b, digs, stale[..digs], W[digs..pa], acc);
  }

  lemma StoreHighColumn(w: seq<Digit>, digs: nat, acc: nat, carry: nat, column: nat)
    requires acc == carry + column
    ensures Power(digs) * Eval(w + [acc % RADIX]) + Power(digs + |w| + 1) * (acc / RADIX)
         == Power(digs) * Eval(w) + Power(digs + |w|) * carry + Power(digs + |w|) * column
  {
    hide Eval;
    hide Power;
    CarryStep(w, acc);
    PowerAdd(digs, |w|);
    PowerAdd(digs, |w| + 1);
    Distribute3(Power(digs + |w|), carry, column, 0);
    ScaleColumn(Power(digs), Eval(w + [acc % RADIX]), Power(|w| + 1), acc / RADIX, Eval(w), Power(|w|), acc);
  }

  lemma ScaleColumn(s: int, e: int, p: int, q: int, f: int, r: int, t: int)
    requires e + p * q == f + r * t
    ensures s * e + s * p * q == s * f + s * r * t
  {
    assert s * (e + p * q) == s * e + s * p * q;
    assert s * (f + r * t) == s * f + s * r * t;
  }

  lemma NothingHigh(a: seq<Digit>, b: seq<Digit>, digs: nat, c: seq<Digit>)
    requires |c| == |a| + |b| <= digs
    ensures HighProduct(a, b, digs, Eval(c))
  {
    hide Eval;
    hide Power;
    hide ColumnSum;
    var rest := Convolution(a, b, digs);
    EvalBound(c);
    PowerGrows(|c|, digs);
  }

  lemma AllHigh(a: seq<Digit>, b: seq<Digit>, digs: nat, low: seq<Digit>, high: seq<Digit>, carry: nat)
    requires |low| == digs && digs + |high| == |a| + |b|
    requires Power(digs) * Eval(high) + Power(|a| + |b|) * carry == ColumnSum(a, b, |a| + |b|) - ColumnSum(a, b, digs)
    ensures HighProduct(a, b, digs, Eval(low + high))
  {
    hide Eval;
    hide Power;
    hide ColumnSum;
    var rest := Convolution(a, b, |a| + |b|);
    ProductBelow(a, b);
    EvalConcat(low, high);
    EvalBound(low);
    MulMonotone(0, Eval(high), Power(digs));
    NoCarry(Power(|a| + |b|), carry, Power(digs) * Eval(high) + ColumnSum(a, b, digs), Eval(a) * Eval(b));
  }

  // ---------------------------------------------------------------- row by row

  lemma RowColumn(t: seq<Digit>, p: nat, r: nat)
    requires p < |t|
    ensures Eval(t[p := r % RADIX]) + Power(p + 1) * (r / RADIX) == Eval(t) + Power(p) * (r - t[p])
  {
    hide Eval;
    EvalUpdate(t, p, r % RADIX);
    PowerStep(p);
    hide Power;
    RowColumnValue(Power(p), r / RADIX, r % RADIX, r, t[p]);
  }

  lemma RowColumnValue(p: int, q: int, m: int, r: int, d: int)
    requires r == m + RADIX * q
    ensures p * (m - d) + RADIX * p * q == p * (r - d)
  {
    assert p * (r - d) == p * (m - d) + p * (RADIX * q);
  }

  /** The number x * s at place p. */
  ghost function Row(p: nat, x: nat, s: seq<Digit>): nat {
    Power(p) * (x * Eval(s))
  }

  /** The row's partial sum grows by one digit of b. */
  lemma RowGrows(p: nat, x: Digit, s: seq<Digit>, d: Digit)
    ensures Row(p, x, s + [d]) == Row(p, x, s) + Place(p + |s|, x as nat * d as nat)
  {
    hide Eval;
    hide Power;
    EvalAppend(s, d);
    PowerAdd(p, |s|);
    RowGrowsValue(Power(p), x, Eval(s), Power(|s|), d);
  }

  lemma RowStarts(p: nat, q: nat, x: nat)
    ensures Row(p, x, []) == 0 && Place(q, 0) == 0
  {
    EvalNone();
  }

  lemma RowGrowsValue(p: int, x: int, e: int, w: int, d: int)
    ensures p * (x * (e + w * d)) == p * (x * e) + p * w * (x * d)
  {
    assert x * (e + w * d) == x * e + w * (x * d);
    assert p * (x * e + w * (x * d)) == p * (x * e) + p * (w * (x * d));
  }

  lemma SliceGrows(b: seq<Digit>, lo: nat, iy: nat)
    requires lo <= iy < |b|
    ensures b[lo..iy + 1] == b[lo..iy] + [b[iy]]
  {
  }

  lemma UpdateKeeps(r: seq<Digit>, t: seq<Digit>, lo: nat, p: nat, v: Digit)
    requires lo <= p < |r| == |t| && r[..lo] == t[..lo] && r[p..] == t[p..]
    ensures r[p := v][..lo] == t[..lo] && r[p := v][p + 1..] == t[p + 1..]
  {
    assert r[p + 1..] == r[p..][1..];
  }

  /** One column of a row: *t + x * y + u, and what it carries. */
  function ColumnWord(d: Digit, x: Digit, y: Digit, u: Digit): nat {
    d + x as nat * y as nat + u
  }

  function CarryOf(w: nat): nat {
    w / RADIX
  }

  lemma ColumnStep(r: seq<Digit>, p: nat, x: Digit, y: Digit, u: Digit)
    requires p < |r|
    ensures var w := ColumnWord(r[p], x, y, u);
            && w < 0x1_0000_0000_0000_0000 && CarryOf(w) < RADIX
            && Eval(r[p := LowDigit(w)]) + Place(p + 1, CarryOf(w))
            == Eval(r) + Place(p, u) + Place(p, x as nat * y as nat)
  {
    hide Eval;
    hide Power;
    MulMonotone(x, RADIX - 1, y);
    MulMonotone(y, RADIX - 1, RADIX - 1);
    var w := ColumnWord(r[p], x, y, u);
    RowColumn(r, p, w);
    Distribute3(Power(p), x as nat * y as nat, u, 0);
  }

  /** One row of schoolbook multiplication: t gains x * b[lo..hi] at place at + lo;
      the carry that leaves the row is returned. */
  method MultiplyAdd(t: seq<Digit>, at: nat, x: Digit, b: seq<Digit>, lo: nat, hi: nat) returns (r: seq<Digit>, u: Digit)
    requires lo <= hi <= |b| && at + hi <= |t|
    ensures |r| == |t| && r[..at + lo] == t[..at + lo] && r[at + hi..] == t[at + hi..]
    ensures Eval(r) + Place(at + hi, u) == Eval(t) + Row(at + lo, x, b[lo..hi])
  {
    hide *;
    r, u := t, 0;
    var iy := lo;
    RowStarts(at + lo, at + lo, x);
    assert b[lo..lo] == [];
    while iy < hi
      invariant lo <= iy <= hi && |r| == |t| && r[..at + lo] == t[..at + lo] && r[at + iy..] == t[at + iy..]
      invariant Eval(r) + Place(at + iy, u) == Eval(t) + Row(at + lo, x, b[lo..iy])
    {
      ColumnStep(r, at + iy, x, b[iy], u);
      var w: Word := ColumnWord(r[at + iy], x, b[iy], u);
      SliceGrows(b, lo, iy);
      RowGrows(at + lo, x, b[lo..iy], b[iy]);
      UpdateKeeps(r, t, at + lo, at + iy, LowDigit(w));
      r, u, iy := r[at + iy := LowDigit(w)], CarryOf(w), iy + 1;
    }
  }

  /** One more digit of a: the product grows by its row. */
  lemma ProductGrows(a: seq<Digit>, b: seq<Digit>, ix: nat)
    requires ix < |a|
    ensures Eval(a[..ix + 1]) * Eval(b) == Eval(a[..ix]) * Eval(b) + Row(ix, a[ix], b)
  {
    hide Eval;
    hide Power;
    EvalPrefix(a, ix);
    assert (Eval(a[..ix]) + Power(ix) * a[ix]) * Eval(b) == Eval(a[..ix]) * Eval(b) + Power(ix) * (a[ix] * Eval(b));
  }

  lemma RowSplit(p: nat, x: Digit, b: seq<Digit>, k: nat)
    requires k <= |b|
    ensures Row(p, x, b) == Row(p, x, b[..k]) + Row(p + k, x, b[k..])
  {
    hide Eval;
    hide Power;
    EvalSplit(b, k);
    PowerAdd(p, k);
    RowGrowsValue(Power(p), x, Eval(b[..k]), Power(k), Eval(b[k..]));
  }

  lemma RowIsPlace(p: nat, x: Digit, b: seq<Digit>, q: nat)
    requires q <= p
    ensures Row(p, x, b) == Place(q, Power(p - q) * (x * Eval(b)))
  {
    hide Eval;
    hide Power;
    PowerAdd(q, p - q);
    assert Power(q) * Power(p - q) * (x * Eval(b)) == Power(q) * (Power(p - q) * (x * Eval(b)));
  }

  lemma PlaceAdds(p: nat, x: nat, y: nat)
    ensures Place(p, x + y) == Place(p, x) + Place(p, y)
  {
    hide Power;
    assert Power(p) * (x + y) == Power(p) * x + Power(p) * y;
  }

  /** The carry of a finished row goes to a place that is still empty. */
  lemma StoreCarry(t: seq<Digit>, p: nat, u: Digit)
    requires p < |t| && t[p] == 0
    ensures Eval(t[p := u]) == Eval(t) + Place(p, u)
  {
    hide Eval;
    hide Power;
    EvalUpdate(t, p, u);
  }

  lemma KeptAbove(r: seq<Digit>, t: seq<Digit>, p: nat)
    requires |r| == |t| && p <= |t| && r[p..] == t[p..]
    ensures forall j :: p <= j < |t| ==> r[j] == t[j]
  {
    forall j | p <= j < |t|
      ensures r[j] == t[j]
    {
      assert r[j] == r[p..][j - p];
    }
  }

  /** Row ix of s_mp_mul_digs; what leaves the digs digits is dropped. */
  method TruncatedRow(t: seq<Digit>, ix: nat, x: Digit, b: seq<Digit>, digs: nat) returns (r: seq<Digit>, ghost over: nat)
    requires |t| == digs && forall j :: ix + |b| <= j < digs ==> t[j] == 0
    ensures |r| == digs && forall j :: ix + 1 + |b| <= j < digs ==> r[j] == 0
    ensures Eval(r) + Place(digs, over) == Eval(t) + Row(ix, x, b)
  {
    hide *;
    LeastIs(|b|, digs - ix);
    var pb := Least(|b|, digs - ix);
    if pb < 0 {
      RowIsPlace(ix, x, b, digs);
      r, over := t, Power(ix - digs) * (x * Eval(b));
      return;
    }
    var u;
    r, u := MultiplyAdd(t, ix, x, b, 0, pb);
    KeptAbove(r, t, ix + pb);
    assert b[0..pb] == b[..pb];
    if ix + pb < digs {
      RowStarts(ix, digs, x);
      StoreCarry(r, ix + pb, u);
      assert b[..pb] == b;
      r, over := r[ix + pb := u], 0;
    } else {
      RowSplit(ix, x, b, pb);
      RowIsPlace(digs, x, b[pb..], digs);
      over := u + Power(0) * (x * Eval(b[pb..]));
      PlaceAdds(digs, u, Power(0) * (x * Eval(b[pb..])));
    }
  }

  /** s_mp_mul_digs, row by row. */
  method SlowMulDigs(a: seq<Digit>, b: seq<Digit>, digs: nat) returns (t: seq<Digit>)
    ensures |t| == digs && Eval(t) == Eval(a) * Eval(b) % Power(digs)
  {
    t := Zeros(digs);
    EvalZeros(t);
    hide *;
    ghost var dropped := 0;
    RowStarts(0, digs, 0);
    EvalNone();
    assert a[..0] == [];
    var ix := 0;
    while ix < |a|
      invariant ix <= |a| && |t| == digs
      invariant Eval(t) + Place(digs, dropped) == Eval(a[..ix]) * Eval(b)
      invariant forall j :: ix + |b| <= j < digs ==> t[j] == 0
    {
      ProductGrows(a, b, ix);
      ghost var over;
      t, over := TruncatedRow(t, ix, a[ix], b, digs);
      PlaceAdds(digs, dropped, over);
      dropped := dropped + over;
      ix := ix + 1;
    }
    assert a[..|a|] == a;
    DroppedModulo(t, digs, dropped, Eval(a) * Eval(b));
  }

  lemma DroppedModulo(t: seq<Digit>, digs: nat, dropped: nat, v: nat)
    requires |t| == digs && Eval(t) + Place(digs, dropped) == v
    ensures Eval(t) == v % Power(digs)
  {
    hide Eval;
    hide Power;
    EvalBound(t);
    DivModUnique(v, Power(digs), dropped, Eval(t));
  }

  lemma ClippedIs(b: seq<Digit>, n: nat)
    ensures Clipped(b, n) == if n < |b| then b[..n] else b
  {
  }

  lemma RowIs(p: nat, x: nat, b: seq<Digit>)
    ensures Row(p, x, b) == Power(p) * (x * Eval(b))
  {
  }

  /** Row ix of s_mp_mul_high_digs: the part of it from place digs up. */
  method HighRow(t: seq<Digit>, ix: nat, x: Digit, b: seq<Digit>, digs: nat) returns (r: seq<Digit>)
    requires ix <= digs < |t| && ix + |b| < |t| && forall j :: ix + |b| <= j < |t| ==> t[j] == 0
    ensures |r| == |t| && forall j :: ix + 1 + |b| <= j < |t| ==> r[j] == 0
    ensures Eval(r) == Eval(t) + Row(ix, x, b) - Row(ix, x, Clipped(b, digs - ix))
  {
    hide *;
    ClippedIs(b, digs - ix);
    var lo := digs - ix;
    if lo < |b| {
      RowSplit(ix, x, b, lo);
      var u;
      r, u := MultiplyAdd(t, ix, x, b, lo, |b|);
      assert b[lo..|b|] == b[lo..];
      KeptAbove(r, t, ix + |b|);
      StoreCarry(r, ix + |b|, u);
      r := r[ix + |b| := u];
    } else {
      r := t[digs := 0];
      assert r == t;
    }
  }

  /** s_mp_mul_high_digs, row by row. The rows start at place digs, so digs must not
      be below the last row. */
  method SlowMulHighDigs(a: seq<Digit>, b: seq<Digit>, digs: nat) returns (t: seq<Digit>)
    requires |a| <= digs + 1 && digs <= |a| + |b|
    ensures |t| == |a| + |b| + 1 && Eval(t) == Eval(a) * Eval(b) - ColumnSum(a, b, digs)
  {
    t := Zeros(|a| + |b| + 1);
    EvalZeros(t);
    hide *;
    EvalNone();
    assert a[..0] == [];
    EmptyColumns(b, digs);
    var ix := 0;
    while ix < |a|
      invariant ix <= |a| && |t| == |a| + |b| + 1
      invariant Eval(t) == Eval(a[..ix]) * Eval(b) - ColumnSum(a[..ix], b, digs)
      invariant forall j :: ix + |b| <= j < |t| ==> t[j] == 0
    {
      ProductGrows(a, b, ix);
      LowColumnsOfRow(a, b, ix, digs);
      RowIs(ix, a[ix], Clipped(b, digs - ix));
      t := HighRow(t, ix, a[ix], b, digs);
      ix := ix + 1;
    }
    assert a[..|a|] == a;
  }
}
