/** The five-point interpolation shared by Toom-Cook multiplication and squaring. */
module Interpolation {
  import opened Arith
  import opened Digits
  import opened DigitLoops
  import opened BitShifts
  import opened Bits
  import opened BigInt
  import opened SmallFactors

  /** The values of c0 + c1 z + ... + c4 z^4 that w0 to w4 start with. */
  ghost predicate Evaluated(c0: int, c1: int, c2: int, c3: int, c4: int, w0: int, w1: int, w2: int, w3: int, w4: int) {
    && w0 == c0
    && w1 == 16 * c0 + 8 * c1 + 4 * c2 + 2 * c3 + c4
    && w2 == c0 + c1 + c2 + c3 + c4
    && w3 == c0 + 2 * c1 + 4 * c2 + 8 * c3 + 16 * c4
    && w4 == c4
  }

  ghost predicate Apart(a: MpInt, b: MpInt, c: MpInt, d: MpInt, e: MpInt, f: MpInt) {
    a != b && a != c && a != d && a != e && a != f && b != c && b != d && b != e && b != f
    && c != d && c != e && c != f && d != e && d != f && e != f
  }

  /** a := a - b. */
  method Take(a: MpInt, b: MpInt)
    requires a.Normal() && b.Normal()
    modifies a
    ensures a.Normal() && a.Value() == old(a.Value()) - old(b.Value())
  {
    hide Eval;
    a.Sub(a, b);
  }

  /** a := a / 2; exact where a is even. */
  method Halve(a: MpInt, ghost h: int)
    requires a.Normal()
    modifies a
    ensures a.Normal() && (old(a.Value()) == 2 * h ==> a.Value() == h)
  {
    hide Eval;
    Div2(a, a);
    EvalNone();
  }

  /** a := a / 3; exact where a is a multiple of three. */
  method TakeThird(a: MpInt, ghost h: int)
    requires a.Normal()
    modifies a
    ensures a.Normal() && (old(a.Value()) == 3 * h ==> a.Value() == h)
  {
    hide Eval;
    Div3(a, a);
    EvalNone();
  }

  /** t := 8 * a. */
  method EightTimes(a: MpInt, t: MpInt)
    requires a.Normal() && a != t
    modifies t
    ensures t.Normal() && t.Value() == 8 * a.Value()
  {
    hide Eval;
    EightIs();
    t.Mul2d(a, 3);
    EvalNone();
  }

  lemma EightIs()
    ensures Pow2(3) == 8
  {
    assert Pow2(1) == 2;
  }

  /** The first half: differences of the values, halved. */
  method Differences(w0: MpInt, w1: MpInt, w2: MpInt, w3: MpInt, w4: MpInt,
                     ghost c0: int, ghost c1: int, ghost c2: int, ghost c3: int, ghost c4: int)
    requires w0 != w1 && w0 != w2 && w0 != w3 && w1 != w2 && w1 != w3 && w1 != w4 && w2 != w3 && w2 != w4 && w3 != w4
    requires w0.Normal() && w1.Normal() && w2.Normal() && w3.Normal() && w4.Normal()
    modifies w1, w2, w3
    ensures w1.Normal() && w2.Normal() && w3.Normal()
    ensures old(Evaluated(c0, c1, c2, c3, c4, w0.Value(), w1.Value(), w2.Value(), w3.Value(), w4.Value()))
            ==> w1.Value() == 8 * c0 + 3 * c1 + c2 && w2.Value() == c1 + c2 + c3 && w3.Value() == c2 + 3 * c3 + 8 * c4
  {
    hide Eval;
    Take(w1, w4);
    Take(w3, w0);
    Halve(w1, 8 * c0 + 4 * c1 + 2 * c2 + c3);
    Halve(w3, c1 + 2 * c2 + 4 * c3 + 8 * c4);
    Take(w2, w0);
    Take(w2, w4);
    Take(w1, w2);
    Take(w3, w2);
  }

  /** The second half: the coefficients one by one. */
  method Coefficients(w0: MpInt, w1: MpInt, w2: MpInt, w3: MpInt, w4: MpInt, tmp: MpInt,
                      ghost c0: int, ghost c1: int, ghost c2: int, ghost c3: int, ghost c4: int)
    requires Apart(w0, w1, w2, w3, w4, tmp)
    requires w0.Normal() && w1.Normal() && w2.Normal() && w3.Normal() && w4.Normal()
    modifies w1, w2, w3, tmp
    ensures w1.Normal() && w2.Normal() && w3.Normal()
    ensures old(w0.Value() == c0 && w1.Value() == 8 * c0 + 3 * c1 + c2 && w2.Value() == c1 + c2 + c3
                && w3.Value() == c2 + 3 * c3 + 8 * c4 && w4.Value() == c4)
            ==> w1.Value() == c1 && w2.Value() == c2 && w3.Value() == c3
  {
    hide Eval;
    EightTimes(w0, tmp);
    Take(w1, tmp);
    EightTimes(w4, tmp);
    Take(w3, tmp);
    w2.MulD(w2, 3);
    Take(w2, w1);
    Take(w2, w3);
    Take(w1, w2);
    Take(w3, w2);
    TakeThird(w1, c1);
    TakeThird(w3, c3);
  }

  /** The twelve subtractions, four shifts, two divisions by three and one product by
      three that turn values back into coefficients. Every division is exact. */
  method Interpolate(w0: MpInt, w1: MpInt, w2: MpInt, w3: MpInt, w4: MpInt, tmp: MpInt,
                     ghost c0: int, ghost c1: int, ghost c2: int, ghost c3: int, ghost c4: int)
    requires Apart(w0, w1, w2, w3, w4, tmp)
    requires w0.Normal() && w1.Normal() && w2.Normal() && w3.Normal() && w4.Normal()
    modifies w1, w2, w3, tmp
    ensures w1.Normal() && w2.Normal() && w3.Normal()
    ensures old(Evaluated(c0, c1, c2, c3, c4, w0.Value(), w1.Value(), w2.Value(), w3.Value(), w4.Value()))
            ==> w1.Value() == c1 && w2.Value() == c2 && w3.Value() == c3
  {
    hide Eval;
    Differences(w0, w1, w2, w3, w4, c0, c1, c2, c3, c4);
    Coefficients(w0, w1, w2, w3, w4, tmp, c0, c1, c2, c3, c4);
  }

  /** w holds a coefficient of a product whose sign is neg. */
  ghost predicate Signed(w: MpInt, neg: bool)
    reads w
  {
    w.Normal() && (w.neg ==> neg) && (!w.neg && neg ==> w.dp == [])
  }

  /** A shift keeps sums of one sign comparable, except for a short number
      against a zero that has been shifted further. */
  lemma ShiftsComparable(s: seq<Digit>, m: nat, t: seq<Digit>, n: nat)
    requires Clamped(s) && Clamped(t) && (s == [] <==> t != []) && m <= n
    requires s != [] ==> |s| >= n - m
    ensures Comparable(Zeros(m) + s, Zeros(n) + t)
  {
    var x, y := Zeros(m) + s, Zeros(n) + t;
    if s != [] {
      assert x[|x| - 1] == s[|s| - 1];
    }
    if t != [] {
      assert y[|y| - 1] == t[|t| - 1];
    }
  }

  method ShiftUp(w: MpInt, n: nat)
    modifies w
    ensures w.dp == Zeros(n) + old(w.dp) && w.neg == old(w.neg) && w.Value() == old(w.Value()) * Power(n)
  {
    hide Eval;
    hide Power;
    ghost var m := w.Mag();
    w.Lshd(n);
    assert (-m) * Power(n) == -(m * Power(n));
  }

  /** What the last additions need: coefficients of one sign, a leading one that is not
      zero, and no short third coefficient below an empty fourth. */
  ghost predicate Mergeable(w0: MpInt, w1: MpInt, w2: MpInt, w3: MpInt, w4: MpInt, n: nat, neg: bool)
    reads w0, w1, w2, w3, w4
  {
    && Signed(w0, neg) && Signed(w1, neg) && Signed(w2, neg) && Signed(w3, neg) && Signed(w4, neg)
    && w4.dp != [] && (w2.neg && w3.dp == [] ==> |w2.dp| >= n)
  }

  /** The additions at the end. They are right except that a negative w0 shorter than
      n digits is compared with a zero w1 of n digits and loses. */
  method Recombine(w0: MpInt, w1: MpInt, w2: MpInt, w3: MpInt, w4: MpInt, tmp: MpInt, c: MpInt, n: nat, ghost neg: bool)
    requires Apart(w0, w1, w2, w3, w4, tmp) && c != w0 && c != w1 && c != w2 && c != w3 && c != w4 && c != tmp
    requires w0.Normal() && w1.Normal() && w2.Normal() && w3.Normal() && w4.Normal()
    modifies w1, w2, w3, w4, tmp, c
    ensures c.Normal()
    ensures old(Mergeable(w0, w1, w2, w3, w4, n, neg)) ==>
            c.Value() == w0.Value() + old(w1.Value()) * Power(n) + old(w2.Value()) * Power(2 * n)
                         + old(w3.Value()) * Power(3 * n) + old(w4.Value()) * Power(4 * n)
                         + if old(w0.neg && w1.dp == [] && |w0.dp| < n) then Power(n) else 0
  {
    hide Eval;
    hide Power;
    EvalNone();
    ghost var d1, d2, d3, d4 := w1.dp, w2.dp, w3.dp, w4.dp;
    ShiftUp(w1, n);
    ShiftUp(w2, 2 * n);
    ShiftUp(w3, 3 * n);
    ShiftUp(w4, 4 * n);
    FirstSum(w0, w1, c, d1, n);
    UpperSum(w2, w3, w4, tmp, d2, d3, d4, n);
    c.Add(tmp, c);
  }

  /** tmp := w2 + w3 + w4, all shifted up already. */
  method UpperSum(w2: MpInt, w3: MpInt, w4: MpInt, tmp: MpInt,
                  ghost d2: seq<Digit>, ghost d3: seq<Digit>, ghost d4: seq<Digit>, ghost n: nat)
    requires w2 != tmp && w3 != tmp && w4 != tmp
    requires Clamped(d2) && Clamped(d3) && Clamped(d4)
    requires w2.dp == Zeros(2 * n) + d2 && w3.dp == Zeros(3 * n) + d3 && w4.dp == Zeros(4 * n) + d4
    modifies tmp
    ensures tmp.Normal()
    ensures d4 != [] && (w2.neg != w3.neg ==> (d2 == [] <==> d3 != []) && (d2 != [] ==> |d2| >= n))
            ==> tmp.Value() == w2.Value() + w3.Value() + w4.Value()
  {
    hide Eval;
    if w2.neg != w3.neg && (d2 == [] <==> d3 != []) && (d2 != [] ==> |d2| >= n) {
      ShiftsComparable(d2, 2 * n, d3, 3 * n);
    }
    tmp.Add(w2, w3);
    if d4 != [] {
      NonzeroShift(d4, 4 * n);
    }
    tmp.Add(w4, tmp);
  }

  lemma NonzeroShift(s: seq<Digit>, m: nat)
    requires Clamped(s) && s != []
    ensures Clamped(Zeros(m) + s)
  {
    var z := Zeros(m) + s;
    assert z[|z| - 1] == s[|s| - 1];
  }

  /** c := w0 + w1, with w1 already shifted up by n digits. */
  method FirstSum(w0: MpInt, w1: MpInt, c: MpInt, ghost d1: seq<Digit>, n: nat)
    requires w0.Normal() && Clamped(d1) && w1.dp == Zeros(n) + d1 && c != w0 && c != w1
    modifies c
    ensures c.Normal()
    ensures (w0.neg && !w1.neg ==> d1 == []) && (w1.neg && !w0.neg ==> w0.dp == [] && d1 != []) ==>
            c.Value() == w0.Value() + w1.Value() + if w0.neg && d1 == [] && !w1.neg && |w0.dp| < n then Power(n) else 0
  {
    hide Eval;
    hide Power;
    EvalNone();
    ClampedZero(w0.dp);
    EvalShifted(d1, n);
    if d1 != [] {
      NonzeroShift(d1, n);
    }
    c.Add(w0, w1);
  }
}
