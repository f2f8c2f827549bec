/** Montgomery reduction: by columns with delayed carries, row by row, and its set-up. */
module Montgomery {
  import opened Arith
  import opened Digits
  import opened DigitLoops
  import opened BitShifts
  import opened Bits
  import opened BigInt
  import opened Products
  import opened Congruence

  /** rho is -1 / n mod b. */
  ghost predicate IsRho(rho: Digit, n: seq<Digit>) {
    n != [] && (rho as int * n[0] as int + 1) % RADIX == 0
  }

  /** r is x / R mod n for R = b^|n|: below n, and r * R is congruent to x. */
  ghost predicate Reduced(r: int, x: int, n: seq<Digit>) {
    0 <= r < Eval(n) && Congruent(r * Power(|n|), x, Eval(n))
  }

  lemma OddEval(n: seq<Digit>)
    requires n != [] && n[0] % 2 == 1
    ensures Eval(n) % 2 == 1
  {
    assert Eval(n) == n[0] + RADIX * Eval(n[1..]);
  }

  /** There is only one such r when n is odd. */
  lemma ReducedIsUnique(r: int, s: int, x: int, n: seq<Digit>)
    requires n != [] && n[0] % 2 == 1 && Reduced(r, x, n) && Reduced(s, x, n)
    ensures r == s
  {
    hide Eval;
    hide Power;
    var m, p := Eval(n), Power(|n|);
    OddEval(n);
    Symmetric(s * p, x, m);
    Transitive(r * p, x, s * p, m);
    PowerIsPow2(|n|);
    CancelPow2(r, s, 28 * |n|, m);
    IsRemainder(r, s, m);
    DivModUnique(r, m, 0, r);
  }

  /** mu makes the lowest column divisible by b. */
  function Mu(w: nat, rho: Digit): Digit {
    w % RADIX * rho % RADIX
  }

  lemma MuClears(w: nat, rho: Digit, d: Digit)
    requires (rho as int * d as int + 1) % RADIX == 0
    ensures (w + Mu(w, rho) as int * d as int) % RADIX == 0
  {
    var mu := Mu(w, rho);
    RemainderIs(w, RADIX);
    RemainderIs(w % RADIX * rho, RADIX);
    Reflexive(rho, RADIX);
    Reflexive(d, RADIX);
    Reflexive(w, RADIX);
    Product(w % RADIX, w, rho, rho, RADIX);
    Symmetric(w % RADIX * rho, mu, RADIX);
    Transitive(mu, w % RADIX * rho, w * rho, RADIX);
    Product(mu, w * rho, d, d, RADIX);
    Sum(w, w, mu * d, w * rho * d, RADIX);
    SameRemainder(w + mu * d, w + w * rho * d, RADIX);
    MuValue(w, rho, d);
  }

  lemma MuValue(w: nat, rho: nat, d: nat)
    requires (rho * d + 1) % RADIX == 0
    ensures (w + w * rho * d) % RADIX == 0
  {
    var q := (rho * d + 1) / RADIX;
    assert rho * d + 1 == q * RADIX;
    assert w + w * rho * d == w * (rho * d + 1);
    assert w * (q * RADIX) == w * q * RADIX;
    ModMultiple(w * q, RADIX);
  }

  // ---------------------------------------------------------------- by columns

  /** A word in column i grows by v. */
  lemma ColumnGrows(s: seq<nat>, i: nat, v: nat)
    requires i < |s|
    ensures Eval(s[i := s[i] + v]) == Eval(s) + Power(i) * v
  {
    hide Eval;
    hide Power;
    EvalUpdate(s, i, s[i] + v);
  }

  /** The largest a column gets after ix rows, its own carry aside. */
  ghost function ColumnLimit(ix: nat): nat {
    (RADIX - 1) + ix * ((RADIX - 1) * (RADIX - 1))
  }

  lemma LimitFits(ix: nat)
    requires ix < 256
    ensures ColumnLimit(ix) + 4 * CARRY_LIMIT < 0x1_0000_0000_0000_0000
    ensures ColumnLimit(ix + 1) == ColumnLimit(ix) + (RADIX - 1) * (RADIX - 1)
  {
    MulMonotone(ix, 255, (RADIX - 1) * (RADIX - 1));
    assert (ix + 1) * ((RADIX - 1) * (RADIX - 1)) == ix * ((RADIX - 1) * (RADIX - 1)) + (RADIX - 1) * (RADIX - 1);
  }

  lemma DigitProduct(x: Digit, y: Digit)
    ensures 0 <= x as int * y as int <= (RADIX - 1) * (RADIX - 1) < 0x1_0000_0000_0000_0000
  {
    MulMonotone(x, RADIX - 1, y);
    MulMonotone(y, RADIX - 1, RADIX - 1);
    MulMonotone(0, x, y);
  }

  lemma SliceUpdate(s: seq<nat>, lo: nat, hi: nat, i: nat, v: nat)
    requires lo <= i < hi <= |s|
    ensures s[i := v][lo..hi] == s[lo..hi][i - lo := v]
  {
  }

  lemma PrefixOfProduct(mu: Digit, n: seq<Digit>, iy: nat)
    requires iy < |n|
    ensures mu as int * Eval(n[..iy + 1]) == mu as int * Eval(n[..iy]) + Power(iy) * (mu as int * n[iy] as int)
  {
    hide Eval;
    hide Power;
    EvalPrefix(n, iy);
    var p, e, d, m: int := Power(iy), Eval(n[..iy]), n[iy], mu;
    assert m * (e + p * d) == m * e + p * (m * d);
  }

  /** Bounds on the columns from ix up, of which the first iy have had row ix added. */
  ghost predicate Bounded(w: seq<nat>, ix: nat, iy: nat) {
    forall j :: 0 <= j < |w| ==>
      w[j] <= (if j < iy then ColumnLimit(ix + 1) else ColumnLimit(ix)) + (if j == 0 then CARRY_LIMIT - 1 else 0)
  }

  lemma BoundedStep(w: seq<nat>, ix: nat, iy: nat, v: nat)
    requires Bounded(w, ix, iy) && iy < |w| && v <= (RADIX - 1) * (RADIX - 1) && ix < 256
    ensures Bounded(w[iy := w[iy] + v], ix, iy + 1)
    ensures ix < 255 ==> w[iy] + v < 0x1_0000_0000_0000_0000
  {
    hide ColumnLimit;
    LimitFits(ix);
    if ix < 255 {
      LimitFits(ix + 1);
    }
  }

  /** The inner loop: row ix, mu * n, is added to the columns from ix up. */
  method AddRow(W: array<Word>, ix: nat, hi: nat, mu: Digit, n: seq<Digit>)
    requires ix + |n| <= hi <= W.Length && n != [] && ix < 255 && Bounded(W[ix..hi], ix, 0)
    modifies W
    ensures Bounded(W[ix..hi], ix, |n|)
    ensures Eval(W[ix..hi]) == old(Eval(W[ix..hi])) + mu as int * Eval(n)
    ensures W[ix] as int == old(W[ix]) as int + mu as int * n[0] as int
  {
    hide *;
    var iy := 0;
    EvalNone();
    assert n[..0] == [];
    ghost var start: seq<nat> := W[ix..hi];
    while iy < |n|
      invariant iy <= |n| && Bounded(W[ix..hi], ix, iy)
      invariant Eval(W[ix..hi]) == Eval(start) + mu as int * Eval(n[..iy])
      invariant W[ix] as int == start[0] as int + if iy > 0 then mu as int * n[0] as int else 0
    {
      ghost var w: seq<nat> := W[ix..hi];
      DigitProduct(mu, n[iy]);
      var v: Word := mu as int * n[iy] as int;
      BoundedStep(w, ix, iy, v);
      ColumnGrows(w, iy, v);
      PrefixOfProduct(mu, n, iy);
      SliceUpdate(W[..], ix, hi, ix + iy, w[iy] + v);
      W[ix + iy] := W[ix + iy] + v;
      assert W[ix..hi] == w[iy := w[iy] + v];
      iy := iy + 1;
    }
    assert n[..|n|] == n;
  }

  /** The carry of a finished column, added to the next one: what is left of the
      columns is worth a b-th of what they were worth together. */
  lemma CarryOn(s: seq<nat>, t: seq<nat>)
    requires |s| >= 2 && s[0] % RADIX == 0 && t == s[1..][0 := s[1] + s[0] / RADIX]
    ensures Eval(t) * RADIX == Eval(s)
  {
    hide Eval;
    EvalHead(s);
    SmallPowers();
    ColumnGrows(s[1..], 0, s[0] / RADIX);
    assert s[1..][0] == s[1];
  }

  /** The accumulated multiple of n after one more row. */
  lemma RowDone(e: nat, f: nat, mu: Digit, n: nat, p: nat, x: nat, m: nat)
    requires f * RADIX == e + mu * n && e * p == x + n * m && m < p
    ensures f * (RADIX * p) == x + n * (m + mu * p) && m + mu * p < RADIX * p
  {
    assert f * (RADIX * p) == f * RADIX * p;
    assert (e + mu * n) * p == e * p + n * (mu * p);
    assert n * (m + mu * p) == n * m + n * (mu * p);
    MulMonotone(mu, RADIX - 1, p);
    assert (RADIX - 1) * p == RADIX * p - p;
  }

  lemma CarriedBounds(s: seq<nat>, t: seq<nat>, ix: nat, k: nat)
    requires |s| >= 2 && k <= |s| && Bounded(s, ix, k) && ix < 255 && t == s[1..][0 := s[1] + s[0] / RADIX]
    ensures Bounded(t, ix + 1, 0) && s[1] + s[0] / RADIX < 0x1_0000_0000_0000_0000
  {
    LimitFits(ix);
    LimitFits(ix + 1);
    hide ColumnLimit;
    assert s[0] <= ColumnLimit(ix + 1) + CARRY_LIMIT - 1;
    assert s[1] <= ColumnLimit(ix + 1);
  }

  /** The state after ix rows: the columns from ix up, hi of them in all, are worth
      (x + n * m) / b^ix for some m below b^ix. */
  ghost predicate Rows(w: seq<nat>, ix: nat, x: nat, n: nat, m: nat) {
    Bounded(w, ix, 0) && Eval(w) * Power(ix) == x + n * m && m < Power(ix)
  }

  /** One turn of the outer loop. */
  method ReduceColumn(W: array<Word>, ix: nat, hi: nat, n: seq<Digit>, rho: Digit, ghost x: nat, ghost m: nat)
    returns (ghost m': nat)
    requires IsRho(rho, n) && ix + |n| <= hi <= W.Length && ix + 2 <= hi && ix < 255
    requires Rows(W[ix..hi], ix, x, Eval(n), m)
    modifies W
    ensures Rows(W[ix + 1..hi], ix + 1, x, Eval(n), m')
  {
    hide Eval;
    hide Power;
    hide Bounded;
    hide Mu;
    ghost var e := Eval(W[ix..hi]);
    var mu := Mu(W[ix], rho);
    MuClears(W[ix], rho, n[0]);
    AddRow(W, ix, hi, mu, n);
    ghost var s: seq<nat> := W[ix..hi];
    ghost var t := s[1..][0 := s[1] + s[0] / RADIX];
    CarryOn(s, t);
    CarriedBounds(s, t, ix, |n|);
    W[ix + 1] := W[ix + 1] + W[ix] / RADIX;
    assert W[ix + 1..hi] == t;
    RowDone(e, Eval(t), mu, Eval(n), Power(ix), x, m);
    PowerStep(ix);
    m' := m + mu * Power(ix);
  }

  /** c holds the low digits of the columns already carried; w starts with the last of them. */
  ghost predicate Carried(c: seq<Digit>, w: seq<nat>, e: nat) {
    w != [] && Eval(c) + Power(|c|) * Eval(w) == e
  }

  lemma CarryDown(c: seq<Digit>, w: seq<nat>, e: nat, t: seq<nat>)
    requires Carried(c, w, e) && |w| >= 2 && t == w[1..][0 := w[1] + w[0] / RADIX]
    ensures Carried(c + [w[0] % RADIX], t, e)
  {
    hide Eval;
    var d := w[0] % RADIX;
    EvalAppend(c, d);
    PowerStep(|c|);
    hide Power;
    EvalHead(w);
    EvalHead(t);
    assert t[1..] == w[1..][1..];
    EvalHead(w[1..]);
    CarryDownValue(Power(|c|), d, w[0] / RADIX, w[0], Eval(t), Eval(w));
  }

  lemma CarryDownValue(p: nat, d: nat, q: nat, w0: nat, t: nat, w: nat)
    requires w0 == d + RADIX * q && w == w0 + RADIX * (t - q)
    ensures p * d + RADIX * p * t == p * w
  {
    assert w == d + RADIX * t;
    assert p * (d + RADIX * t) == p * d + RADIX * p * t by {
      assert p * (RADIX * t) == RADIX * p * t;
    }
  }

  /** Fixing the rest of the carries; hi - 1 is the last column that is used. */
  method PropagateCarries(W: array<Word>, k: nat, hi: nat, ghost e: nat) returns (ghost c: seq<Digit>)
    requires k + 1 < hi < W.Length && Eval(W[k..hi]) == e
    requires forall j :: k <= j < hi ==> W[j] < 0x1_0000_0000_0000_0000 - CARRY_LIMIT
    modifies W
    ensures |c| == hi - k && forall i :: 0 <= i < |c| ==> c[i] == W[k + i] % RADIX
    ensures Eval(c[..|c| - 1]) + Power(|c| - 1) * W[hi - 1] == e
  {
    hide Eval;
    hide Power;
    hide Carried;
    var ix := k + 1;
    c := [];
    CarriedStart(W[k..hi], e);
    while ix < hi
      invariant k + 1 <= ix <= hi && |c| == ix - 1 - k
      invariant forall i :: 0 <= i < |c| ==> c[i] == W[k + i] % RADIX
      invariant Carried(c, W[ix - 1..hi], e)
      invariant forall j :: ix <= j < hi ==> W[j] < 0x1_0000_0000_0000_0000 - CARRY_LIMIT
    {
      ghost var w: seq<nat> := W[ix - 1..hi];
      CarryDown(c, w, e, w[1..][0 := w[1] + w[0] / RADIX]);
      c := c + [w[0] % RADIX];
      W[ix] := W[ix] + W[ix - 1] / RADIX;
      assert W[ix..hi] == w[1..][0 := w[1] + w[0] / RADIX];
      ix := ix + 1;
    }
    CarriedEnd(c, W[hi - 1..hi], e);
    c := c + [W[hi - 1] % RADIX];
    // the loop also adds to column hi, which was never set and is never read
    W[hi] := (W[hi] + W[hi - 1] / RADIX) % 0x1_0000_0000_0000_0000;
  }

  lemma CarriedStart(w: seq<nat>, e: nat)
    requires w != [] && Eval(w) == e
    ensures Carried([], w, e)
  {
    hide Eval;
    EvalNone();
    SmallPowers();
  }

  lemma CarriedEnd(c: seq<Digit>, w: seq<nat>, e: nat)
    requires Carried(c, w, e) && |w| == 1
    ensures Eval(c) + Power(|c|) * w[0] == e
  {
    EvalOne(w[0]);
    assert w == [w[0]];
  }

  /** The reduced columns are worth less than 2n, so the top one needs no further carry. */
  lemma TopColumn(c: seq<Digit>, top: nat, e: nat, n: seq<Digit>)
    requires |c| == |n| && Eval(c) + Power(|c|) * top == e < 2 * Eval(n)
    ensures top < 2 && Eval(c + [top]) == e
  {
    hide Eval;
    hide Power;
    EvalBound(n);
    if top >= 2 {
      MulMonotone(2, top, Power(|c|));
    }
    EvalAppend(c, top);
  }

  /** (x + n * m) / R is below 2n and congruent to x / R. */
  lemma QuotientFacts(e: nat, x: int, n: nat, m: nat, p: nat)
    requires e * p == x + n * m && m < p && x < n * p
    ensures e < 2 * n && Congruent(e * p, x, n)
  {
    MulMonotone(m, p, n);
    assert 2 * n * p == n * p + n * p;
    if e >= 2 * n {
      MulMonotone(2 * n, e, p);
    }
    assert n * m == m * n;
    CongruentBy(e * p, x, n, m);
  }

  lemma StartRows(w: seq<nat>, x: seq<Digit>, n: nat)
    requires |x| <= |w| && w[..|x|] == x && forall i :: |x| <= i < |w| ==> w[i] == 0
    ensures Rows(w, 0, Eval(x), n, 0)
  {
    hide Eval;
    EvalPadded(x, w);
    SmallPowers();
    forall j | 0 <= j < |w|
      ensures w[j] <= RADIX - 1
    {
      assert j < |x| ==> w[j] == x[j];
    }
  }

  lemma RowsFits(w: seq<nat>, ix: nat, x: nat, n: nat, m: nat)
    requires Rows(w, ix, x, n, m) && ix < 256
    ensures forall j :: 0 <= j < |w| ==> w[j] < 0x1_0000_0000_0000_0000 - CARRY_LIMIT
    ensures Eval(w) * Power(ix) == x + n * m && m < Power(ix)
  {
    LimitFits(ix);
  }

  /** Copies the digits of x into the columns and clears the others. */
  method LoadColumns(W: array<Word>, x: seq<Digit>, hi: nat, ghost n: nat)
    requires |x| <= hi <= W.Length
    modifies W
    ensures Rows(W[0..hi], 0, Eval(x), n, 0)
  {
    hide Eval;
    hide Rows;
    var ix := 0;
    while ix < |x|
      invariant ix <= |x|
      invariant forall i :: 0 <= i < ix ==> W[i] == x[i]
    {
      W[ix] := x[ix];
      ix := ix + 1;
    }
    while ix < hi
      invariant |x| <= ix <= hi
      invariant forall i :: 0 <= i < |x| ==> W[i] == x[i]
      invariant forall i :: |x| <= i < ix ==> W[i] == 0
    {
      W[ix] := 0;
      ix := ix + 1;
    }
    assert W[0..hi][..|x|] == x;
    StartRows(W[0..hi], x, n);
  }

  /** x less n if it is not below n already. */
  method SubtractOnce(x: MpInt, n: MpInt, ghost v: int)
    requires x != n && x.Normal() && n.Normal() && !x.neg && x.Mag() < 2 * n.Mag()
    requires Congruent(x.Mag() * Power(|n.dp|), v, n.Mag())
    modifies x
    ensures x.Normal() && !x.neg && Reduced(x.Mag(), v, n.dp)
  {
    hide Eval;
    hide Power;
    hide Congruent;
    ghost var r, p, m := x.Mag(), Power(|n.dp|), n.Mag();
    var c := MpInt.CmpMag(x, n);
    if c != Less {
      OrderedLengths(x.dp, n.dp);
      x.SSub(x, n);
      OneLess(r, p, v, m);
    }
  }

  lemma OneLess(r: int, p: int, v: int, n: int)
    requires Congruent(r * p, v, n)
    ensures Congruent((r - n) * p, v, n)
  {
    assert (r - n) * p == r * p + (-p) * n;
    CongruentBy((r - n) * p, r * p, n, -p);
    Transitive((r - n) * p, r * p, v, n);
  }

  /** The outer loop: the lowest |n| columns are made multiples of b, one after the other. */
  method ClearColumns(W: array<Word>, hi: nat, n: seq<Digit>, rho: Digit, ghost x: nat) returns (ghost m: nat)
    requires |n| < 256 && IsRho(rho, n) && hi == 2 * |n| + 1 <= W.Length && n != []
    requires Rows(W[0..hi], 0, x, Eval(n), 0)
    modifies W
    ensures Rows(W[|n|..hi], |n|, x, Eval(n), m)
  {
    hide *;
    m := 0;
    var ix := 0;
    while ix < |n|
      invariant ix <= |n| && Rows(W[ix..hi], ix, x, Eval(n), m)
    {
      m := ReduceColumn(W, ix, hi, n, rho, x, m);
      ix := ix + 1;
    }
  }

  /** The last carries, and the digits copied out. */
  method FinishColumns(W: array<Word>, hi: nat, n: seq<Digit>, ghost x: nat, ghost m: nat) returns (d: seq<Digit>)
    requires 0 < |n| < 256 && hi == 2 * |n| + 1 < W.Length
    requires Rows(W[|n|..hi], |n|, x, Eval(n), m) && x < Eval(n) * Power(|n|)
    modifies W
    ensures Eval(d) < 2 * Eval(n) && Congruent(Eval(d) * Power(|n|), x, Eval(n))
  {
    hide *;
    var k := |n|;
    ghost var w: seq<nat> := W[k..hi];
    ghost var e := Eval(w);
    RowsFits(w, k, x, Eval(n), m);
    ColumnsFit(W, k, hi, w);
    QuotientFacts(e, x, Eval(n), m, Power(k));
    ghost var c := PropagateCarries(W, k, hi, e);
    TopColumn(c[..k], W[2 * k], e, n);
    TopDigit(c, k, W[2 * k]);
    d := CopyOut(W, k, c);
  }

  /** fast_mp_montgomery_reduce: x becomes x / R mod n. */
  method FastReduce(x: MpInt, n: MpInt, rho: Digit)
    requires x != n && x.Normal() && n.Normal() && !x.neg && |n.dp| < 256 && IsRho(rho, n.dp)
    requires x.Mag() < n.Mag() * Power(|n.dp|)
    modifies x
    ensures x.Normal() && !x.neg && Reduced(x.Mag(), old(x.Mag()), n.dp)
  {
    var k := |n.dp|;
    var W := new Word[WARRAY];
    hide Eval;
    hide Power;
    hide Rows;
    hide Congruent;
    ghost var v := x.Mag();
    InputLength(x.dp, n.dp);
    RhoHasDigits(rho, n.dp);
    hide IsRho;
    LoadColumns(W, x.dp, 2 * k + 1, n.Mag());
    ghost var m := ClearColumns(W, 2 * k + 1, n.dp, rho, v);
    x.dp := FinishColumns(W, 2 * k + 1, n.dp, v, m);
    x.Clamp();
    SubtractOnce(x, n, v);
  }

  lemma RhoHasDigits(rho: Digit, n: seq<Digit>)
    requires IsRho(rho, n)
    ensures n != [] && (rho as int * n[0] as int + 1) % RADIX == 0
  {
  }

  lemma InputLength(x: seq<Digit>, n: seq<Digit>)
    requires Clamped(x) && Eval(x) < Eval(n) * Power(|n|)
    ensures |x| <= 2 * |n|
  {
    hide Eval;
    hide Power;
    EvalBound(n);
    MulMonotone(Eval(n), Power(|n|), Power(|n|));
    PowerAdd(|n|, |n|);
    if |x| > 2 * |n| {
      ClampedBounds(x);
      PowerGrows(|n| + |n|, |x| - 1);
    }
  }

  lemma ColumnsFit(W: array<Word>, k: nat, hi: nat, w: seq<nat>)
    requires k <= hi <= W.Length && w == W[k..hi]
    requires forall j :: 0 <= j < |w| ==> w[j] < 0x1_0000_0000_0000_0000 - CARRY_LIMIT
    ensures forall j :: k <= j < hi ==> W[j] < 0x1_0000_0000_0000_0000 - CARRY_LIMIT
  {
    forall j | k <= j < hi
      ensures W[j] < 0x1_0000_0000_0000_0000 - CARRY_LIMIT
    {
      assert W[j] == w[j - k];
    }
  }

  lemma TopDigit(c: seq<Digit>, k: nat, top: nat)
    requires |c| == k + 1 && top < 2 && c[k] == top % RADIX
    ensures c == c[..k] + [top]
  {
  }

  /** Copies the low digits of the columns from k up. */
  method CopyOut(W: array<Word>, k: nat, ghost c: seq<Digit>) returns (d: seq<Digit>)
    requires 2 * k + 1 <= W.Length && |c| == k + 1 && forall i :: 0 <= i < |c| ==> c[i] == W[k + i] % RADIX
    ensures d == c
  {
    d := [];
    var ix := 0;
    while ix < k + 1
      invariant ix <= k + 1 && d == c[..ix]
    {
      d := d + [W[k + ix] % RADIX];
      ix := ix + 1;
    }
  }

  // ---------------------------------------------------------------- row by row

  const CELLS: nat := 0x1_0000_0000   // 2^32: what a cell loses when it wraps

  /** Cells are t where the source began with t0; lost counts the cells that wrapped in between. A cell
      that is no digit has not been written yet, and only such a cell wraps, once. */
  ghost predicate Kept(t: seq<Cell>, t0: seq<Cell>, lost: seq<nat>) {
    && |t| == |t0| == |lost|
    && forall j :: 0 <= j < |t| ==> KeptCell(t[j], t0[j], lost[j])
  }

  ghost predicate KeptCell(c: Cell, c0: Cell, l: nat) {
    l <= 1 && (c < RADIX || (c == c0 && l == 0)) && (l == 1 ==> c0 >= RADIX)
  }

  ghost predicate AreDigits(t: seq<Cell>, lo: int, hi: int) {
    forall j :: 0 <= j < |t| && lo <= j < hi ==> t[j] < RADIX
  }

  /** One written cell keeps this, whether it wraps or not. */
  lemma KeptStep(t: seq<Cell>, t0: seq<Cell>, lost: seq<nat>, p: nat, d: Digit, wrap: nat)
    requires Kept(t, t0, lost) && p < |t| && wrap <= 1 && (wrap == 1 ==> t[p] >= RADIX)
    ensures Kept(t[p := d], t0, lost[p := lost[p] + wrap])
    ensures Eval(lost[p := lost[p] + wrap]) == Eval(lost) + Place(p, wrap)
  {
    hide Eval;
    hide Power;
    assert KeptCell(t[p], t0[p], lost[p]);
    assert KeptCell(d, t0[p], lost[p] + wrap);
    EvalUpdate(lost, p, lost[p] + wrap);
  }

  lemma DigitsStep(t: seq<Cell>, lo: nat, hi: nat, p: nat, d: Digit)
    requires AreDigits(t, lo, hi) && p < |t|
    ensures AreDigits(t[p := d], lo, if p == hi then hi + 1 else hi)
  {
  }

  /** A cell plus a carry, as the source's 32-bit addition makes it. */
  function CellOf(c: Cell, u: Cell): Cell {
    (c as nat + u as nat) % 0x1_0000_0000
  }

  function WrapOf(c: Cell, u: Cell): nat {
    (c as nat + u as nat) / 0x1_0000_0000
  }

  /** The number before and after one cell of the carry loop. */
  lemma CarryCell(t: seq<Cell>, p: nat, u: Cell)
    requires p < |t| && u <= 0x1000_0010
    ensures var c := CellOf(t[p], u); var wrap := WrapOf(t[p], u);
            && CarryOf(c) <= 15 && LowDigit(c) < 0x1000_0000 && wrap <= 1 && (wrap == 1 ==> t[p] >= RADIX)
            && Eval(t[p := LowDigit(c)]) + Place(p + 1, CarryOf(c)) + CELLS * Place(p, wrap) == Eval(t) + Place(p, u)
  {
    var c, wrap := CellOf(t[p], u), WrapOf(t[p], u);
    assert t[p] + u == c + 0x1_0000_0000 * wrap;
    hide Eval;
    CellColumn(t, p, c);
    hide Power;
    CarryCellValue(Power(p), t[p], u, c, wrap);
  }

  lemma CarryCellValue(p: int, c0: int, u: int, c: int, wrap: int)
    requires c0 + u == c + CELLS * wrap
    ensures p * (c - c0) + CELLS * (p * wrap) == p * u
  {
    assert p * (c - c0 + CELLS * wrap) == p * (c - c0) + p * (CELLS * wrap);
    assert p * (CELLS * wrap) == CELLS * (p * wrap);
  }

  lemma CellColumn(t: seq<Cell>, p: nat, r: nat)
    requires p < |t|
    ensures Eval(t[p := r % RADIX]) + Power(p + 1) * (r / RADIX) == Eval(t) + Power(p) * (r - t[p])
  {
    hide Eval;
    EvalUpdate(t, p, r % RADIX);
    PowerStep(p);
    hide Power;
    RowColumnValue(Power(p), r / RADIX, r % RADIX, r, t[p]);
  }

  /** One column of a row: mu * d + u + c, a 64-bit word, and its 32-bit carry. */
  function RowWord(c: Cell, mu: Digit, d: Digit, u: Cell): nat {
    mu as nat * d as nat + u as nat + c as nat
  }

  lemma RowCell(t: seq<Cell>, p: nat, mu: Digit, d: Digit, u: Cell)
    requires p < |t| && u <= 0x1000_0010
    ensures var w := RowWord(t[p], mu, d, u);
            && w < 0x1_0000_0000_0000_0000 && CarryOf(w) <= 0x1000_0010 && LowDigit(w) < 0x1000_0000
            && Eval(t[p := LowDigit(w)]) + Place(p + 1, CarryOf(w))
               == Eval(t) + Place(p, u) + Place(p, mu as nat * d as nat)
  {
    hide Eval;
    hide Power;
    DigitProduct(mu, d);
    var w := RowWord(t[p], mu, d, u);
    CellColumn(t, p, w);
    PlaceAdds(p, u, mu as nat * d as nat);
  }

  /** The inner loop: row ix, mu * n, is added to the cells; what it writes are digits. */
  method AddRowToCells(t: seq<Cell>, ix: nat, mu: Digit, n: seq<Digit>, ghost t0: seq<Cell>, ghost lost: seq<nat>)
    returns (r: seq<Cell>, u: Cell)
    requires ix + |n| <= |t| && Kept(t, t0, lost)
    ensures Kept(r, t0, lost) && |r| == |t| && r[..ix] == t[..ix] && AreDigits(r, ix, ix + |n|) && u <= 0x1000_0010
    ensures Eval(r) + Place(ix + |n|, u) == Eval(t) + Row(ix, mu, n)
  {
    hide *;
    r, u := t, 0;
    var iy := 0;
    RowStarts(ix, ix, mu);
    assert n[0..0] == [];
    NoDigits(t, ix);
    KeptLengths(t, t0, lost);
    while iy < |n|
      invariant iy <= |n| && |r| == |t| == |lost| && r[..ix] == t[..ix] && u <= 0x1000_0010
      invariant Kept(r, t0, lost) && AreDigits(r, ix, ix + iy)
      invariant Eval(r) + Place(ix + iy, u) == Eval(t) + Row(ix, mu, n[0..iy])
    {
      RowCell(r, ix + iy, mu, n[iy], u);
      var w: Word := RowWord(r[ix + iy], mu, n[iy], u);
      SliceGrows(n, 0, iy);
      RowGrows(ix, mu, n[0..iy], n[iy]);
      KeptStep(r, t0, lost, ix + iy, LowDigit(w), 0);
      assert lost[ix + iy := lost[ix + iy] + 0] == lost;
      DigitsStep(r, ix, ix + iy, ix + iy, LowDigit(w));
      r, u, iy := r[ix + iy := LowDigit(w)], CarryOf(w), iy + 1;
    }
    assert n[0..|n|] == n;
  }

  lemma NoDigits(t: seq<Cell>, ix: nat)
    ensures AreDigits(t, ix, ix)
  {
  }

  lemma KeptLengths(t: seq<Cell>, t0: seq<Cell>, lost: seq<nat>)
    requires Kept(t, t0, lost)
    ensures |t| == |t0| == |lost|
  {
  }

  lemma CarryInside(e: nat, n: nat, p: nat, u: nat)
    requires e + Place(p, u) < Power(n) && u > 0
    ensures p < n
  {
    hide Power;
    MulMonotone(1, u, Power(p));
    if p >= n {
      PowerGrows(n, p);
    }
  }

  /** The carry loop; the value says that it stays inside. A cell that is no digit may wrap. */
  method PropagateUp(t: seq<Cell>, at: nat, carry: Cell, ghost t0: seq<Cell>, ghost lost: seq<nat>)
    returns (r: seq<Cell>, ghost lost': seq<nat>)
    requires Kept(t, t0, lost) && carry <= 0x1000_0010 && at <= |t|
    requires Eval(t) + Place(at, carry) + CELLS * Eval(lost) < Power(|t|)
    ensures Kept(r, t0, lost') && |r| == |t| && r[..at] == t[..at]
    ensures Eval(r) + CELLS * Eval(lost') == Eval(t) + Place(at, carry) + CELLS * Eval(lost)
  {
    KeptLengths(t, t0, lost);
    hide *;
    r, lost' := t, lost;
    var p: nat, u: Cell := at, carry;
    while u != 0
      invariant at <= p <= |t| == |r| == |lost'| && r[..at] == t[..at] && u <= 0x1000_0010
      invariant Kept(r, t0, lost')
      invariant Eval(r) + Place(p, u) + CELLS * Eval(lost') == Eval(t) + Place(at, carry) + CELLS * Eval(lost)
      decreases |t| - p
    {
      CarryInside(Eval(r), |t|, p, u);
      CarryCell(r, p, u);
      var c := CellOf(r[p], u);
      ghost var wrap := WrapOf(r[p], u);
      KeptStep(r, t0, lost', p, LowDigit(c), wrap);
      assert r[p := LowDigit(c)][..at] == r[..at];
      r, u, p, lost' := r[p := LowDigit(c)], CarryOf(c), p + 1, lost'[p := lost'[p] + wrap];
    }
    PlaceFacts(p, 0);
  }

  /** When the low ix digits are zero, the choice of mu clears digit ix as well. */
  lemma NextDigitClear(t: seq<Cell>, r: seq<Cell>, n: seq<Digit>, ix: nat, mu: Digit, u: nat)
    requires ix < |t| == |r| && n != [] && r[..ix] == t[..ix] && Eval(t[..ix]) == 0 && r[ix] < RADIX
    requires Eval(r) + Place(ix + |n|, u) == Eval(t) + Row(ix, mu, n)
    requires (t[ix] as int + mu as int * n[0] as int) % RADIX == 0
    ensures Eval(r[..ix + 1]) == 0
  {
    hide *;
    FromPlace(t, ix);
    FromPlace(r, ix);
    RowIs(ix, mu, n);
    EvalHead(n);
    EvalPrefix(r, ix);
    var c := CarryFromPlace(ix, |n|, u);
    ClearValue(Power(ix), Eval(r[ix..]), Eval(t[ix..]), mu, Eval(n), c,
               r[ix], Eval(r[ix + 1..]), t[ix], Eval(t[ix + 1..]), n[0], Eval(n[1..]));
  }

  lemma FromPlace(t: seq<nat>, ix: nat)
    requires ix < |t|
    ensures Eval(t) == Eval(t[..ix]) + Power(ix) * Eval(t[ix..]) && Eval(t[ix..]) == t[ix] + RADIX * Eval(t[ix + 1..])
  {
    EvalSplit(t, ix);
    EvalHead(t[ix..]);
    assert t[ix..][1..] == t[ix + 1..];
  }

  lemma CarryFromPlace(ix: nat, k: nat, u: nat) returns (c: nat)
    requires k > 0
    ensures Place(ix + k, u) == Power(ix) * (RADIX * c)
  {
    PowerStep(k - 1);
    PowerAdd(ix, k);
    hide Power;
    c := Power(k - 1) * u;
    assert Power(ix) * (RADIX * Power(k - 1)) * u == Power(ix) * (RADIX * (Power(k - 1) * u));
  }

  lemma ClearValue(p: nat, re: nat, te: nat, mu: nat, ne: nat, c: nat,
                   r0: nat, r1: nat, t0: nat, t1: nat, n0: nat, n1: nat)
    requires p > 0 && p * re + p * (RADIX * c) == p * te + p * (mu * ne) && r0 < RADIX
    requires re == r0 + RADIX * r1 && te == t0 + RADIX * t1 && ne == n0 + RADIX * n1
    requires (t0 + mu * n0) % RADIX == 0
    ensures p * r0 == 0
  {
    assert p * te + p * (mu * ne) == p * (te + mu * ne);
    assert p * re + p * (RADIX * c) == p * (re + RADIX * c);
    SameFactor(p, re + RADIX * c, te + mu * ne);
    var q := (t0 + mu * n0) / RADIX;
    assert mu * (n0 + RADIX * n1) == mu * n0 + RADIX * (mu * n1);
    DivModUnique(r0, RADIX, 0, r0);
    ModAddMultiple(r0, q + t1 + mu * n1 - r1 - c, RADIX);
    DivModUnique(r0, RADIX, q + t1 + mu * n1 - r1 - c, 0);
  }

  lemma SameFactor(p: nat, x: int, y: int)
    requires p > 0 && p * x == p * y
    ensures x == y
  {
    if x < y {
      MulStrict(x, y, p);
    } else if y < x {
      MulStrict(y, x, p);
    }
  }

  /** The value after one more row. */
  lemma RowAdded(e: nat, ix: nat, mu: Digit, n: seq<Digit>, x: nat, m: nat)
    requires e == x + Eval(n) * m && m < Power(ix) && x < Eval(n) * Power(|n|) && ix < |n|
    ensures e + Row(ix, mu, n) == x + Eval(n) * (m + mu * Power(ix))
    ensures m + mu * Power(ix) < Power(ix + 1)
    ensures e + Row(ix, mu, n) < Power(2 * |n| + 1)
  {
    hide Eval;
    hide Power;
    RowIs(ix, mu, n);
    PowerStep(ix);
    PowerStep(2 * |n|);
    PowerAdd(|n|, |n|);
    PowerGrows(ix + 1, |n|);
    EvalBound(n);
    RowAddedValue(e, Power(ix), mu, Eval(n), x, m, Power(|n|));
  }

  lemma RowAddedValue(e: nat, p: nat, mu: Digit, n: nat, x: nat, m: nat, q: nat)
    requires e == x + n * m && m < p && x < n * q && RADIX * p <= q && n < q
    ensures e + p * (mu * n) == x + n * (m + mu * p)
    ensures m + mu * p < RADIX * p
    ensures e + p * (mu * n) < RADIX * (q * q)
  {
    assert n * (m + mu * p) == n * m + p * (mu * n);
    MulMonotone(mu, RADIX - 1, p);
    assert (RADIX - 1) * p == RADIX * p - p;
    MulMonotone(m + mu * p, q, n);
    MulMonotone(n, q, q);
    assert (m + mu * p) * n == n * (m + mu * p);
  }

  lemma PrefixDigits(r: seq<Cell>, s: seq<Cell>, lo: nat, hi: nat)
    requires hi <= |r| == |s| && r[..hi] == s[..hi] && AreDigits(s, lo, hi)
    ensures AreDigits(r, lo, hi)
  {
    forall j | lo <= j < hi
      ensures r[j] < RADIX
    {
      assert r[j] == r[..hi][j] && s[j] == s[..hi][j];
    }
  }

  lemma OneDigit(s: seq<Cell>, lo: nat, hi: nat)
    requires AreDigits(s, lo, hi) && lo < hi && lo < |s|
    ensures s[lo] < RADIX
  {
  }

  /** What the rows leave: the cells, and the wrapped ones counted in, are worth x + n * m. */
  ghost predicate Cleared(t: seq<Cell>, lost: seq<nat>, ix: nat, x: nat, n: seq<Digit>, m: nat) {
    && ix <= |t| == 2 * |n| + 1 && Eval(t[..ix]) == 0 && m < Power(ix)
    && Eval(t) + CELLS * Eval(lost) == x + Eval(n) * m
  }

  lemma ClearedIs(t: seq<Cell>, lost: seq<nat>, ix: nat, x: nat, n: seq<Digit>, m: nat)
    ensures Cleared(t, lost, ix, x, n, m) <==>
            && ix <= |t| == 2 * |n| + 1 && Eval(t[..ix]) == 0 && m < Power(ix)
            && Eval(t) + CELLS * Eval(lost) == x + Eval(n) * m
  {
  }

  /** One turn of the baseline loop. */
  method BaselineRow(t: seq<Cell>, ix: nat, n: seq<Digit>, rho: Digit,
                     ghost t0: seq<Cell>, ghost lost: seq<nat>, ghost x: nat, ghost m: nat)
    returns (r: seq<Cell>, ghost lost': seq<nat>, ghost m': nat)
    requires IsRho(rho, n) && ix < |n| && x < Eval(n) * Power(|n|)
    requires Kept(t, t0, lost) && Cleared(t, lost, ix, x, n, m)
    ensures Kept(r, t0, lost') && Cleared(r, lost', ix + 1, x, n, m') && AreDigits(r, ix, ix + |n|)
  {
    RhoHasDigits(rho, n);
    hide *;
    ClearedIs(t, lost, ix, x, n, m);
    var mu := Mu(t[ix], rho);
    MuClears(t[ix], rho, n[0]);
    RowAdded(Eval(t) + CELLS * Eval(lost), ix, mu, n, x, m);
    var s, u := AddRowToCells(t, ix, mu, n, t0, lost);
    OneDigit(s, ix, ix + |n|);
    NextDigitClear(t, s, n, ix, mu, u);
    r, lost' := PropagateUp(s, ix + |n|, u, t0, lost);
    PrefixDigits(r, s, ix, ix + |n|);
    assert r[..ix + 1] == r[..ix + |n|][..ix + 1] && s[..ix + 1] == s[..ix + |n|][..ix + 1];
    m' := m + mu * Power(ix);
    ClearedIs(r, lost', ix + 1, x, n, m');
  }

  /** The cells of the number and of the memory above it. */
  function Cells(x: seq<Digit>, above: seq<Cell>): seq<Cell> {
    x + above
  }

  /** above holds the cells from the top of x to place 2|n|; the two highest are digits. */
  ghost predicate Above(x: seq<Digit>, above: seq<Cell>, n: seq<Digit>) {
    && |x| + |above| == 2 * |n| + 1 && AreDigits(Cells(x, above), 2 * |n| - 1, 2 * |n| + 1)
    && Eval(Cells(x, above)) < Eval(n) * Power(|n|)
  }

  /** Which cells wrapped: none of those that began as a digit. */
  ghost predicate Wrapped(lost: seq<nat>, t0: seq<Cell>) {
    |lost| == |t0| && forall j :: 0 <= j < |t0| ==> lost[j] <= 1 && (lost[j] == 1 ==> t0[j] >= RADIX)
  }

  ghost function NoneLost(n: nat): (r: seq<nat>)
    ensures |r| == n && forall j :: 0 <= j < n ==> r[j] == 0
  {
    seq(n, i => 0)
  }

  lemma RowsStart(t: seq<Cell>, n: seq<Digit>)
    requires |t| == 2 * |n| + 1
    ensures Kept(t, t, NoneLost(|t|)) && Cleared(t, NoneLost(|t|), 0, Eval(t), n, 0) && Eval(NoneLost(|t|)) == 0
  {
    var lost := NoneLost(|t|);
    EvalZeros(lost);
    assert t[..0] == [];
    forall j | 0 <= j < |t|
      ensures KeptCell(t[j], t[j], lost[j])
    {
    }
    SmallPowers();
  }

  lemma KeptIsWrapped(t: seq<Cell>, t0: seq<Cell>, lost: seq<nat>, k: nat)
    requires Kept(t, t0, lost) && AreDigits(t, k - 1, 2 * k - 1) && AreDigits(t0, 2 * k - 1, 2 * k + 1)
    requires k > 0 && |t| == 2 * k + 1
    ensures Wrapped(lost, t0) && forall j :: k <= j < |t| ==> t[j] < RADIX
  {
    forall j | 0 <= j < |t|
      ensures KeptCell(t[j], t0[j], lost[j]) && (k <= j ==> t[j] < RADIX)
    {
      assert j >= 2 * k - 1 ==> t0[j] < RADIX;
    }
  }

  /** The rows of the baseline reduction. */
  method BaselineRows(t: seq<Cell>, n: seq<Digit>, rho: Digit)
    returns (r: seq<Cell>, ghost lost: seq<nat>, ghost m: nat)
    requires IsRho(rho, n) && n != [] && |t| == 2 * |n| + 1 && Eval(t) < Eval(n) * Power(|n|)
    ensures Kept(r, t, lost) && Cleared(r, lost, |n|, Eval(t), n, m) && AreDigits(r, |n| - 1, 2 * |n| - 1)
  {
    hide *;
    RowsStart(t, n);
    r, lost, m := t, NoneLost(|t|), 0;
    var ix := 0;
    while ix < |n|
      invariant ix <= |n| && Kept(r, t, lost) && Cleared(r, lost, ix, Eval(t), n, m)
      invariant ix > 0 ==> AreDigits(r, ix - 1, ix - 1 + |n|)
    {
      r, lost, m := BaselineRow(r, ix, n, rho, t, lost, Eval(t), m);
      ix := ix + 1;
    }
  }

  /** The baseline form, on cells: (x + n * m) / R. */
  method BaselineQuotient(x: seq<Digit>, above: seq<Cell>, n: seq<Digit>, rho: Digit)
    returns (d: seq<Digit>, ghost lost: seq<nat>)
    requires IsRho(rho, n) && n != [] && Above(x, above, n)
    ensures Wrapped(lost, Cells(x, above)) && Eval(d) < 2 * Eval(n)
    ensures Congruent(Eval(d) * Power(|n|), Eval(Cells(x, above)) - CELLS * Eval(lost), Eval(n))
  {
    AboveIs(x, above, n);
    hide *;
    var k := |n|;
    var t0 := Cells(x, above);
    var t;
    ghost var m;
    t, lost, m := BaselineRows(t0, n, rho);
    ClearedIs(t, lost, k, Eval(t0), n, m);
    KeptIsWrapped(t, t0, lost, k);
    d := t[k..];
    EvalSplit(t, k);
    QuotientFacts(Eval(d), Eval(t0) - CELLS * Eval(lost), Eval(n), m, Power(k));
  }

  lemma AboveIs(x: seq<Digit>, above: seq<Cell>, n: seq<Digit>)
    requires Above(x, above, n)
    ensures |Cells(x, above)| == |x| + |above| == 2 * |n| + 1 && AreDigits(Cells(x, above), 2 * |n| - 1, 2 * |n| + 1)
    ensures Eval(x) <= Eval(Cells(x, above)) < Eval(n) * Power(|n|)
  {
    hide Eval;
    hide Power;
    EvalConcat(x, above);
    MulMonotone(0, Eval(above), Power(|x|));
  }

  /** mp_montgomery_reduce. By columns (n below 256 digits) x becomes x / R mod n. The baseline form
      takes the cells above x for digits of it without having cleared them, and what it reduces is
      the number they all spell, less 2^32 for each cell that wrapped. */
  method Reduce(x: MpInt, n: MpInt, rho: Digit, above: seq<Cell>) returns (ghost lost: seq<nat>)
    requires x != n && x.Normal() && n.Normal() && !x.neg && IsRho(rho, n.dp)
    requires x.Mag() < n.Mag() * Power(|n.dp|) && (|n.dp| >= 256 ==> Above(x.dp, above, n.dp))
    modifies x
    ensures x.Normal() && !x.neg
    ensures |n.dp| < 256 ==> Reduced(x.Mag(), old(x.Mag()), n.dp)
    ensures |n.dp| >= 256 ==> Wrapped(lost, Cells(old(x.dp), above))
    ensures |n.dp| >= 256 ==> Reduced(x.Mag(), Eval(Cells(old(x.dp), above)) - CELLS * Eval(lost), n.dp)
  {
    hide Eval;
    hide Power;
    hide Congruent;
    hide Above;
    var k := |n.dp|;
    var digs := 2 * k + 1;
    if digs < WARRAY && k < MAX_COLUMN {
      lost := [];
      FastReduce(x, n, rho);
      return;
    }
    RhoHasDigits(rho, n.dp);
    hide *;
    ghost var t0 := Cells(x.dp, above);
    var d;
    d, lost := BaselineQuotient(x.dp, above, n.dp, rho);
    x.dp := d;
    x.Clamp();
    SubtractOnce(x, n, Eval(t0) - CELLS * Eval(lost));
  }

  // --------------------------------------------- when the cells above do no harm

  /** The reduction is right exactly when what it takes in addition is a multiple of n. */
  lemma RightIfMultiple(r: int, x: seq<Digit>, above: seq<Cell>, lost: seq<nat>, n: seq<Digit>)
    requires Reduced(r, Eval(Cells(x, above)) - CELLS * Eval(lost), n)
    ensures Reduced(r, Eval(x), n) <==> Congruent(Power(|x|) * Eval(above) - CELLS * Eval(lost), 0, Eval(n))
  {
    hide Eval;
    hide Power;
    hide Congruent;
    EvalConcat(x, above);
    var m, v: int, z := Eval(n), Eval(x), Power(|x|) * Eval(above) - CELLS * Eval(lost);
    var y := r * Power(|n|);
    if Congruent(y, v, m) {
      Symmetric(y, v + z, m);
      Transitive(v + z, y, v, m);
      Reflexive(-v, m);
      Sum(v + z, v, -v, -v, m);
    }
    if Congruent(z, 0, m) {
      Reflexive(v, m);
      Sum(v, v, z, 0, m);
      Transitive(y, v + z, v, m);
    }
  }

  /** Digits do not wrap: a reduction is right exactly when the digits above spell a multiple of n. */
  lemma DigitsAbove(r: int, x: seq<Digit>, above: seq<Cell>, lost: seq<nat>, n: seq<Digit>)
    requires n != [] && n[0] % 2 == 1 && AreDigits(above, 0, |above|) && Wrapped(lost, Cells(x, above))
    requires Reduced(r, Eval(Cells(x, above)) - CELLS * Eval(lost), n)
    ensures Reduced(r, Eval(x), n) <==> Eval(above) % Eval(n) == 0
  {
    OddEval(n);
    NoDigitWraps(x, above, lost);
    RightIfMultiple(r, x, above, lost, n);
    hide *;
    MultipleAbove(|x|, Eval(above), Eval(n));
    SameRemainder(Eval(above), 0, Eval(n));
  }

  lemma NoDigitWraps(x: seq<Digit>, above: seq<Cell>, lost: seq<nat>)
    requires AreDigits(above, 0, |above|) && Wrapped(lost, Cells(x, above))
    ensures Eval(lost) == 0
  {
    forall j | 0 <= j < |lost|
      ensures lost[j] == 0
    {
      assert Cells(x, above)[j] == if j < |x| then x[j] else above[j - |x|];
    }
    EvalZeros(lost);
  }

  /** A power of b does not matter modulo an odd number. */
  lemma MultipleAbove(k: nat, a: int, m: int)
    requires m % 2 == 1
    ensures Congruent(Power(k) * a, 0, m) <==> Congruent(a, 0, m)
  {
    hide Power;
    hide Congruent;
    var p: int := Power(k);
    PowerIsPow2(k);
    assert 0 * p == 0 && a * p == p * a;
    if Congruent(p * a, 0, m) {
      CancelPow2(a, 0, 28 * k, m);
    }
    if Congruent(a, 0, m) {
      Reflexive(p, m);
      Product(a, 0, p, p, m);
    }
  }

  /** One unset word at place p, and zeros else. */
  ghost predicate OneWord(x: seq<Digit>, above: seq<Cell>, p: nat, word: Cell) {
    && |x| <= p < |x| + |above|
    && forall j :: 0 <= j < |above| ==> above[j] == if |x| + j == p then word else 0
  }

  /** A single word above x: the reduction is right exactly when the word is 0. */
  lemma OneWordAbove(r: int, x: seq<Digit>, above: seq<Cell>, lost: seq<nat>, n: seq<Digit>, p: nat, word: Cell)
    requires |n| >= 256 && Clamped(n) && n[0] % 2 == 1 && OneWord(x, above, p, word) && Wrapped(lost, Cells(x, above))
    requires Reduced(r, Eval(Cells(x, above)) - CELLS * Eval(lost), n)
    ensures Reduced(r, Eval(x), n) <==> word == 0
  {
    var t := Cells(x, above);
    var l := lost[p];
    forall j | 0 <= j < |lost| && j != p
      ensures lost[j] == 0
    {
      assert t[j] == if j < |x| then x[j] else above[j - |x|];
    }
    assert t[p] == word && l <= 1 && (l == 1 ==> word >= RADIX);
    OneEntry(lost, p);
    OneEntry(above, p - |x|);
    RightIfMultiple(r, x, above, lost, n);
    OddEval(n);
    ManyDigits(n);
    hide Eval;
    PowerAdd(|x|, p - |x|);
    hide Power;
    hide Congruent;
    WordValue(Power(|x|), Power(p - |x|), word, l);
    var m, w: int := Eval(n), word - CELLS * l;
    MultipleAbove(p, w, m);
    assert w * Power(p) == Power(p) * w;
    if Congruent(w, 0, m) {
      SmallMultiple(w, m);
    }
    if word == 0 {
      Reflexive(0, m);
    }
  }

  lemma WordValue(q: int, s: int, word: int, l: int)
    ensures q * (s * word) - CELLS * (q * s * l) == (word - CELLS * l) * (q * s)
  {
    assert (word - CELLS * l) * (q * s) == word * (q * s) - CELLS * l * (q * s);
    assert q * (s * word) == word * (q * s) && CELLS * (q * s * l) == CELLS * l * (q * s);
  }

  lemma OneEntry(s: seq<nat>, p: nat)
    requires p < |s| && forall j :: 0 <= j < |s| && j != p ==> s[j] == 0
    ensures Eval(s) == Power(p) * s[p]
  {
    hide Eval;
    hide Power;
    EvalSplit(s, p + 1);
    EvalPrefix(s, p);
    EvalZeros(s[..p]);
    EvalZeros(s[p + 1..]);
  }

  lemma ManyDigits(n: seq<Digit>)
    requires |n| >= 256 && Clamped(n)
    ensures Eval(n) >= RADIX * RADIX
  {
    ClampedBounds(n);
    SmallPowers();
    hide Power;
    PowerGrows(2, |n| - 1);
  }

  lemma SmallMultiple(w: int, m: int)
    requires Congruent(w, 0, m) && -m < w < m
    ensures w == 0
  {
    var q := Witness(w, 0, m);
    if q >= 1 {
      MulMonotone(1, q, m);
    } else if q <= -1 {
      MulMonotone(q, -1, m);
    }
  }
}
