/** mp_sqr: by columns, Karatsuba or Toom-Cook, whichever suits the size. */
module Squaring {
  import opened Arith
  import opened Digits
  import opened DigitLoops
  import opened BigInt
  import opened Interpolation
  import opened Columns
  import opened Products
  import opened Multiply

  const KARATSUBA_SQR_CUTOFF := 120
  const TOOM_SQR_CUTOFF := 400

  /** mp_karatsuba_sqr. */
  method KaratsubaSqr(a: MpInt, b: MpInt)
    requires a.Normal() && |a.dp| >= 4
    modifies b
    ensures b.Normal() && b.Value() == Times(old(a.Mag()), old(a.Mag()))
    decreases |a.dp|, 0
  {
    hide Eval;
    hide Power;
    hide Times;
    hide Clamped;
    var n := |a.dp| / 2;
    var x0, x1 := Halves(a, n);
    ghost var u0, u1 := x0.Mag(), x1.Mag();
    var x0x0 := new MpInt();
    var x1x1 := new MpInt();
    var t1 := new MpInt();
    var t2 := new MpInt();
    Sqr(x0, x0x0);
    Sqr(x1, x1x1);
    t1.SAdd(x1, x0);
    Sqr(t1, t1);
    TimesFacts(Power(n), u0, u1, u0, u1);
    DoublePower(n);
    Assemble(x0x0, x1x1, t1, t2, b, n, Times(u0, u0), Times(u1, u1), Times(u1 + u0, u1 + u0));
  }

  /** The squares of the polynomial's values at the five points. */
  method FiveSquares(a0: MpInt, a1: MpInt, a2: MpInt, ghost na: bool, ghost l: nat)
    returns (w0: MpInt, w1: MpInt, w2: MpInt, w3: MpInt, w4: MpInt)
    requires Signed(a0, na) && Signed(a1, na) && Signed(a2, na)
    requires |a0.dp| <= l && |a1.dp| <= l && |a2.dp| <= l
    ensures fresh(w0) && fresh(w1) && fresh(w2) && fresh(w3) && fresh(w4)
    ensures w0 != w1 && w0 != w2 && w0 != w3 && w0 != w4 && w1 != w2 && w1 != w3 && w1 != w4
    ensures w2 != w3 && w2 != w4 && w3 != w4
    ensures w0.Normal() && w1.Normal() && w2.Normal() && w3.Normal() && w4.Normal()
    ensures Evaluated(Times(a0.Value(), a0.Value()), C1(a0.Value(), a1.Value(), a0.Value(), a1.Value()),
                      C2(a0.Value(), a1.Value(), a2.Value(), a0.Value(), a1.Value(), a2.Value()),
                      C1(a1.Value(), a2.Value(), a1.Value(), a2.Value()), Times(a2.Value(), a2.Value()),
                      w0.Value(), w1.Value(), w2.Value(), w3.Value(), w4.Value())
    decreases l + 4, 5
  {
    ToomEvaluated(a0.Value(), a1.Value(), a2.Value(), a0.Value(), a1.Value(), a2.Value());
    hide *;
    w0 := SquareOf(a0, na, l);
    w4 := SquareOf(a2, na, l);
    w1 := PointSquare(a0, a1, a2, na, l);
    w3 := PointSquare(a2, a1, a0, na, l);
    w2 := SumSquare(a0, a1, a2, na, l);
  }

  method PointSquare(x: MpInt, y: MpInt, z: MpInt, ghost neg: bool, ghost l: nat) returns (w: MpInt)
    requires Signed(x, neg) && Signed(y, neg) && Signed(z, neg) && |x.dp| <= l && |y.dp| <= l && |z.dp| <= l
    ensures fresh(w) && w.Normal()
    ensures w.Value() == Times(z.Value() + 2 * y.Value() + 4 * x.Value(), z.Value() + 2 * y.Value() + 4 * x.Value())
    decreases l + 4, 4
  {
    hide *;
    var t := new MpInt();
    PointAt(x, y, z, t, neg, l);
    w := SquareOf(t, neg, l + 4);
  }

  method SumSquare(x: MpInt, y: MpInt, z: MpInt, ghost neg: bool, ghost l: nat) returns (w: MpInt)
    requires Signed(x, neg) && Signed(y, neg) && Signed(z, neg) && |x.dp| <= l && |y.dp| <= l && |z.dp| <= l
    ensures fresh(w) && w.Normal()
    ensures w.Value() == Times(z.Value() + y.Value() + x.Value(), z.Value() + y.Value() + x.Value())
    decreases l + 4, 4
  {
    hide *;
    var t := new MpInt();
    SumAt(x, y, z, t, neg, l);
    w := SquareOf(t, neg, l + 4);
  }

  method SquareOf(x: MpInt, ghost neg: bool, ghost l: nat) returns (w: MpInt)
    requires Signed(x, neg) && |x.dp| <= l
    ensures fresh(w) && w.Normal() && w.Value() == Times(x.Value(), x.Value())
    decreases l, 3
  {
    hide Eval;
    w := new MpInt();
    SquareOfSign(x);
    Sqr(x, w);
  }

  lemma SquareOfSign(x: MpInt)
    ensures Times(x.Value(), x.Value()) == Times(x.Mag(), x.Mag()) >= 0
  {
    var m: int := x.Mag();
    assert (-m) * (-m) == m * m;
  }

  /** The split and the five squares. */
  method ToomSquares(a: MpInt, n: nat)
    returns (w0: MpInt, w1: MpInt, w2: MpInt, w3: MpInt, w4: MpInt, ghost u0: nat, ghost u1: nat, ghost u2: nat)
    requires a.Normal() && n > 2 && 3 * n <= |a.dp|
    ensures fresh(w0) && fresh(w1) && fresh(w2) && fresh(w3) && fresh(w4)
    ensures w0 != w1 && w0 != w2 && w0 != w3 && w0 != w4 && w1 != w2 && w1 != w3 && w1 != w4
    ensures w2 != w3 && w2 != w4 && w3 != w4
    ensures w0.Normal() && w1.Normal() && w2.Normal() && w3.Normal() && w4.Normal()
    ensures u2 >= Power(n - 1) && a.Value() == Joined(n, a.neg, u0, u1, u2)
    ensures FromThirds(a.neg, a.neg, u0, u1, u2, u0, u1, u2, w0.Value(), w1.Value(), w2.Value(), w3.Value(), w4.Value())
    decreases |a.dp|, 0
  {
    hide *;
    ghost var na := a.neg;
    var a0, a1, a2 := Thirds(a, n);
    ThirdsFacts(a0, a1, a2, a.dp, n, na);
    u0, u1, u2 := a0.Mag(), a1.Mag(), a2.Mag();
    JoinedIs(n, na, u0, u1, u2);
    w0, w1, w2, w3, w4 := FiveSquares(a0, a1, a2, na, |a2.dp|);
    FromThirdsIs(na, na, u0, u1, u2, u0, u1, u2, w0.Value(), w1.Value(), w2.Value(), w3.Value(), w4.Value());
  }

  /** mp_toom_sqr. */
  method ToomSqr(a: MpInt, b: MpInt)
    requires a.Normal() && |a.dp| >= TOOM_SQR_CUTOFF
    modifies b
    ensures b.Normal() && b.Value() == Times(old(a.Mag()), old(a.Mag()))
    decreases |a.dp|, 1
  {
    SquareOfSign(a);
    var n := |a.dp| / 3;
    assert n > 2 && 3 * n <= |a.dp|;
    hide *;
    ghost var na := a.neg;
    var w0, w1, w2, w3, w4, u0, u1, u2 := ToomSquares(a, n);
    Finish(w0, w1, w2, w3, w4, b, n, na, na, u0, u1, u2, u0, u1, u2);
  }

  /** mp_sqr, for numbers of any size and sign. */
  method Sqr(a: MpInt, b: MpInt)
    requires a.Normal()
    modifies b
    ensures b.Normal() && !b.neg && b.Mag() == Times(old(a.Mag()), old(a.Mag()))
    decreases |a.dp|, 2
  {
    ghost var m := a.Mag();
    TimesIs(m, m);
    MulMonotone(0, m, m);
    hide Eval;
    hide Times;
    if |a.dp| >= TOOM_SQR_CUTOFF {
      ToomSqr(a, b);
      ProductsAreMagnitudes(b);
    } else if |a.dp| >= KARATSUBA_SQR_CUTOFF {
      KaratsubaSqr(a, b);
      ProductsAreMagnitudes(b);
    } else {
      // below the Karatsuba cutoff the columns always fit: s_mp_sqr is never reached
      assert 2 * |a.dp| + 1 < WARRAY && |a.dp| < MAX_COLUMN / 2;
      b.dp := FastSqr(a.dp);
      b.Clamp();
    }
    b.neg := false;
  }
}
