/** mp_div: schoolbook long division on normalised operands, and the slow
    bit-by-bit division it must agree with. */
module Division {
  import opened Arith
  import opened Digits
  import opened DigitLoops
  import opened BitShifts
  import opened Bits
  import opened BigInt

  function Abs(x: int): nat {
    if x < 0 then -x else x
  }

  /** Division rounding toward zero. */
  function Quotient(a: int, b: int): int
    requires b != 0
  {
    if (a < 0) == (b < 0) then Abs(a) / Abs(b) else -(Abs(a) / Abs(b))
  }

  function Remainder(a: int, b: int): int
    requires b != 0
  {
    if a < 0 then -(Abs(a) % Abs(b)) else Abs(a) % Abs(b)
  }

  /** What long division promises: a = q * b + r with r smaller than b and zero or
      signed like a. No other pair does that. */
  ghost predicate Divides(a: int, b: int, q: int, r: int) {
    a == q * b + r && Abs(r) < Abs(b) && (r == 0 || (r < 0) == (a < 0))
  }

  lemma DivisionIsUnique(a: int, b: int, q: int, r: int)
    requires b != 0
    ensures Divides(a, b, q, r) <==> q == Quotient(a, b) && r == Remainder(a, b)
  {
    QuotientDivides(a, b);
    if Divides(a, b, q, r) {
      OnlyQuotientDivides(a, b, q, r);
    }
  }

  /** s is the quotient without its sign. */
  function Unsigned(a: int, b: int, s: int): int {
    if (a < 0) == (b < 0) then s else -s
  }

  lemma SignedProduct(a: int, b: int, s: int)
    ensures Unsigned(a, b, s) * b == if a < 0 then -(s * Abs(b)) else s * Abs(b)
  {
    NegatedProduct(s, b);
    NegatedProduct(s, Abs(b));
  }

  lemma NegatedProduct(x: int, y: int)
    ensures (-x) * y == -(x * y) && x * (-y) == -(x * y) && (-x) * (-y) == x * y
  {
  }

  lemma SignedDivides(a: int, b: int, s: nat, m: nat)
    requires b != 0 && Abs(a) == s * Abs(b) + m && m < Abs(b)
    ensures Divides(a, b, Unsigned(a, b, s), if a < 0 then -(m as int) else m)
  {
    SignedProduct(a, b, s);
  }

  lemma QuotientDivides(a: int, b: int)
    requires b != 0
    ensures Divides(a, b, Quotient(a, b), Remainder(a, b))
  {
    hide Divides;
    var s, m := Abs(a) / Abs(b), Abs(a) % Abs(b);
    SignedDivides(a, b, s, m);
  }

  lemma OnlyQuotientDivides(a: int, b: int, q: int, r: int)
    requires b != 0 && Divides(a, b, q, r)
    ensures q == Quotient(a, b) && r == Remainder(a, b)
  {
    var x, y, s := Abs(a), Abs(b), Unsigned(a, b, q);
    SignedProduct(a, b, s);
    DivModUnique(x, y, s, Abs(r));
  }

  // ------------------------------------------------------------ leading digits

  /** Digit i, which is zero above the top and below the bottom. */
  function At(s: seq<Digit>, i: int): Digit {
    if 0 <= i < |s| then s[i] else 0
  }

  lemma OneTop(s: seq<Digit>, i: nat)
    requires |s| <= i + 1
    ensures var low := if i < |s| then s[..i] else s;
            && Eval(s) == Eval(low) + Power(i) * At(s, i) && |low| <= i
            && forall j :: j < i ==> At(low, j) == At(s, j)
  {
    hide Eval;
    hide Power;
    if i < |s| {
      EvalPrefix(s, i);
      assert s[..i + 1] == s;
    }
  }

  /** The two leading digits as a number. */
  function Top2(s: seq<Digit>, i: int): nat {
    At(s, i) * RADIX + At(s, i - 1)
  }

  function Top3(s: seq<Digit>, i: int): nat {
    At(s, i) * RADIX * RADIX + Top2(s, i - 1)
  }

  lemma TopTwoDigits(s: seq<Digit>, t: nat)
    requires |s| <= t + 1
    ensures Top2(s, t) * Power(t) <= Eval(s) * RADIX < (Top2(s, t) + 1) * Power(t)
  {
    hide Eval;
    hide Power;
    hide Top2;
    OneTop(s, t);
    var low := if t < |s| then s[..t] else s;
    SmallPowers();
    if t == 0 {
      TopOneDigit(s);
    } else {
      OneTop(low, t - 1);
      var low2 := if t - 1 < |low| then low[..t - 1] else low;
      EvalBound(low2);
      PowerGrows(|low2|, t - 1);
      PowerStep(t - 1);
      TwoDigitsValue(Power(t - 1), At(s, t), At(s, t - 1), Eval(low2));
      Top2Is(s, t);
    }
  }

  lemma Top2Is(s: seq<Digit>, i: int)
    ensures Top2(s, i) == At(s, i) * RADIX + At(s, i - 1)
  {
  }

  lemma TopOneDigit(s: seq<Digit>)
    requires |s| <= 1
    ensures Top2(s, 0) == Eval(s) * RADIX
  {
    OneTop(s, 0);
    SmallPowers();
    EvalNone();
  }

  lemma TwoDigitsValue(p: nat, x: nat, y: nat, low: nat)
    requires low < p
    ensures (x * RADIX + y) * (RADIX * p) <= (low + p * y + RADIX * p * x) * RADIX < (x * RADIX + y + 1) * (RADIX * p)
  {
    assert (x * RADIX + y) * (RADIX * p) == RADIX * (p * y) + RADIX * (RADIX * p * x);
    assert (x * RADIX + y + 1) * (RADIX * p) == (x * RADIX + y) * (RADIX * p) + RADIX * p;
  }

  lemma TopThreeDigits(s: seq<Digit>, i: nat)
    requires |s| <= i + 1 && i >= 1
    ensures Top3(s, i) * Power(i - 1) <= Eval(s) * RADIX < (Top3(s, i) + 1) * Power(i - 1)
  {
    hide Eval;
    hide Power;
    OneTop(s, i);
    var low := if i < |s| then s[..i] else s;
    TopTwoDigits(low, i - 1);
    assert At(low, i - 1) == At(s, i - 1) && At(low, i - 2) == At(s, i - 2);
    PowerStep(i - 1);
    ThreeDigitsValue(Power(i - 1), At(s, i), Top2(s, i - 1), Eval(low));
  }

  lemma ThreeDigitsValue(p: nat, x: nat, v: nat, low: nat)
    requires v * p <= low * RADIX < (v + 1) * p
    ensures (x * RADIX * RADIX + v) * p <= (low + RADIX * p * x) * RADIX < (x * RADIX * RADIX + v + 1) * p
  {
    var w := x * RADIX * RADIX;
    assert RADIX * p * x * RADIX == w * p;
    assert (w + v) * p == w * p + v * p && (w + v + 1) * p == w * p + (v + 1) * p;
  }

  // ------------------------------------------------------------- trial quotient

  /** Scaled by one digit so that a one-digit divisor is no exception:
      num is x, den is y * b^m, v and w their leading digits in units of p. */
  ghost predicate Scaled(num: nat, den: nat, v: nat, w: nat, p: nat) {
    p > 0 && v * p <= den < (v + 1) * p && w * p <= num < (w + 1) * p
  }

  /** The true digit never exceeds a trial digit that passes the test. */
  lemma TrialIsLarge(num: nat, den: nat, v: nat, w: nat, p: nat, q: nat)
    requires Scaled(num, den, v, w, p) && q * den <= num
    ensures q * v <= w
  {
    MulMonotone(v * p, den, q);
    assert q * (v * p) == q * v * p;
    if q * v > w {
      MulMonotone(w + 1, q * v, p);
    }
  }

  /** A trial digit that passes the three-digit test is at most one too large. */
  lemma TrialIsClose(num: nat, den: nat, v: nat, w: nat, p: nat, q: nat)
    requires Scaled(num, den, v, w, p) && q * v <= w && q < RADIX <= v
    ensures q * den <= num + den
  {
    MulMonotone(den, (v + 1) * p, q);
    assert q * ((v + 1) * p) == q * v * p + q * p;
    MulMonotone(q * v, w, p);
    MulMonotone(q, v, p);
  }

  /** So is one that was tested against a short product, because the divisor is
      normalised: the digit is then 3 at most. */
  lemma ShortTrialIsClose(num: nat, den: nat, y: nat, x: nat, p: nat, q: nat)
    requires Scaled(num, den, y, x, p) && q * y <= x && q <= 3 <= y
    ensures q * den <= num + den
  {
    MulMonotone(den, (y + 1) * p, q);
    assert q * ((y + 1) * p) == q * y * p + q * p;
    MulMonotone(q * y, x, p);
    MulMonotone(q, y, p);
  }

  /** From three leading digits back to two. */
  lemma ScaledCoarse(num: nat, den: nat, y: nat, y1: nat, x: nat, x1: nat, p: nat)
    requires y1 < RADIX && x1 < RADIX && Scaled(num, den, y * RADIX + y1, x * RADIX + x1, p)
    ensures Scaled(num, den, y, x, RADIX * p)
  {
    assert (y * RADIX + y1) * p == y * (RADIX * p) + y1 * p;
    assert (x * RADIX + x1) * p == x * (RADIX * p) + x1 * p;
    assert (y * RADIX + y1 + 1) * p == y * (RADIX * p) + (y1 + 1) * p;
    assert (x * RADIX + x1 + 1) * p == x * (RADIX * p) + (x1 + 1) * p;
    assert (y + 1) * (RADIX * p) == y * (RADIX * p) + RADIX * p;
    assert (x + 1) * (RADIX * p) == x * (RADIX * p) + RADIX * p;
    MulMonotone(y1 + 1, RADIX, p);
    MulMonotone(x1 + 1, RADIX, p);
  }

  /** What the normalisation gives: 27 bits in the leading digit. */
  predicate Normalised(y: seq<Digit>) {
    y != [] && y[|y| - 1] >= 0x400_0000
  }

  /** The state before quotient digit i - t - 1 is found, with t = |y| - 1. */
  predicate DigitPending(x: seq<Digit>, y: seq<Digit>, i: nat) {
    && Normalised(y) && Clamped(x) && |y| <= i <= |x| <= i + 1
    && Eval(x) < Eval(y) * Power(i - |y| + 1)
  }

  /** y * b^(i - t - 1). */
  function Unit(y: seq<Digit>, i: nat): nat
    requires |y| <= i
  {
    Eval(y) * Power(i - |y|)
  }

  lemma ScaledDigits(x: seq<Digit>, y: seq<Digit>, i: nat)
    requires y != [] && |y| <= i && |x| <= i + 1
    ensures Scaled(Eval(x) * RADIX, Unit(y, i) * RADIX, Top2(y, |y| - 1), Top3(x, i), Power(i - 1))
  {
    hide Eval;
    hide Power;
    hide Top2;
    hide Top3;
    var t, m := |y| - 1, i - |y|;
    TopTwoDigits(y, t);
    TopThreeDigits(x, i);
    PowerAdd(t, m);
    var v, p, w, e := Top2(y, t), Power(t), Power(m), Eval(y);
    MulMonotone(v * p, e * RADIX, w);
    MulStrict(e * RADIX, (v + 1) * p, w);
    assert v * p * w == v * (p * w) && (v + 1) * p * w == (v + 1) * (p * w);
    assert e * RADIX * w == e * w * RADIX;
  }

  lemma UnitIsPositive(y: seq<Digit>, i: nat)
    requires Normalised(y) && |y| <= i
    ensures Unit(y, i) > 0
  {
    hide Eval;
    hide Power;
    ClampedBounds(y);
    MulStrict(0, Eval(y), Power(i - |y|));
  }

  /** The true digit is within the first estimate. */
  lemma DigitInRange(x: seq<Digit>, y: seq<Digit>, i: nat, q: nat)
    requires DigitPending(x, y, i) && q * Unit(y, i) <= Eval(x)
    ensures q < RADIX && q * y[|y| - 1] <= Top2(x, i) && q * Top2(y, |y| - 1) <= Top3(x, i)
  {
    hide Eval;
    hide Power;
    hide Top2;
    hide Top3;
    var t, u, e := |y| - 1, Unit(y, i), Eval(x);
    UnitIsPositive(y, i);
    PowerStep(i - |y|);
    assert Eval(y) * Power(i - |y| + 1) == RADIX * u;
    if q >= RADIX {
      MulMonotone(RADIX, q, u);
    }
    ScaledDigits(x, y, i);
    assert q * (u * RADIX) == q * u * RADIX;
    TrialIsLarge(e * RADIX, u * RADIX, Top2(y, t), Top3(x, i), Power(i - 1), q);
    TopsCoarse(x, y, i);
    TrialIsLarge(e * RADIX, u * RADIX, y[t], Top2(x, i), RADIX * Power(i - 1), q);
  }

  lemma TopsCoarse(x: seq<Digit>, y: seq<Digit>, i: nat)
    requires y != [] && |y| <= i && |x| <= i + 1
    ensures Scaled(Eval(x) * RADIX, Unit(y, i) * RADIX, y[|y| - 1], Top2(x, i), RADIX * Power(i - 1))
  {
    hide Scaled;
    hide Unit;
    ScaledDigits(x, y, i);
    var t := |y| - 1;
    assert Top3(x, i) == Top2(x, i) * RADIX + At(x, i - 2);
    ScaledCoarse(Eval(x) * RADIX, Unit(y, i) * RADIX, y[t], At(y, t - 1), Top2(x, i), At(x, i - 2), Power(i - 1));
  }

  /** Wherever the correction loop stops, at most one too many. */
  lemma TrialIsTight(x: seq<Digit>, y: seq<Digit>, i: nat, q: Digit)
    requires DigitPending(x, y, i)
    requires q * Top2(y, |y| - 1) <= Top3(x, i) || q * Top2(y, |y| - 1) < RADIX * RADIX
    requires At(x, i) == 0 ==> q * y[|y| - 1] <= At(x, i - 1)
    ensures q * Unit(y, i) <= Eval(x) + Unit(y, i)
  {
    hide Eval;
    hide Power;
    hide Scaled;
    hide Unit;
    var t, u, e := |y| - 1, Unit(y, i), Eval(x);
    assert q * (u * RADIX) == q * u * RADIX;
    if q * Top2(y, t) <= Top3(x, i) {
      ScaledDigits(x, y, i);
      TrialIsClose(e * RADIX, u * RADIX, Top2(y, t), Top3(x, i), Power(i - 1), q);
    } else {
      assert At(x, i) == 0;
      assert Top2(x, i) == At(x, i - 1);
      if q >= 4 {
        MulMonotone(4, q, Top2(y, t));
      }
      TopsCoarse(x, y, i);
      ShortTrialIsClose(e * RADIX, u * RADIX, y[t], Top2(x, i), RADIX * Power(i - 1), q);
    }
  }

  /** (q - 1) & MP_MASK, and its inverse. */
  function Down(q: Digit): Digit {
    (q + RADIX - 1) % RADIX
  }

  function Up(q: Digit): Digit {
    (q + 1) % RADIX
  }

  lemma DownUp(q: Digit)
    ensures Down(Up(q)) == q && (q > 0 ==> Down(q) == q - 1)
  {
  }

  /** Step 3.1: the first estimate from two digits of x and one of y is not too small. */
  method FirstEstimate(x: seq<Digit>, y: seq<Digit>, i: nat, ghost exact: nat) returns (q: Digit)
    requires y != [] && y[|y| - 1] > 0 && 1 <= i <= |x|
    requires exact < RADIX && exact * y[|y| - 1] <= Top2(x, i)
    ensures exact <= q
    ensures At(x, i) == 0 ==> q * y[|y| - 1] <= At(x, i - 1)
  {
    var t := |y| - 1;
    if At(x, i) == y[t] {
      q := RADIX - 1;
    } else {
      var tmp: Word := At(x, i) * RADIX + x[i - 1];
      QuotientOf(tmp, y[t], exact);
      tmp := tmp / y[t];
      if tmp > RADIX - 1 {
        MulMonotone(RADIX - 1, tmp, y[t]);
        tmp := RADIX - 1;
      }
      q := tmp;
    }
  }

  lemma QuotientOf(n: nat, m: nat, p: nat)
    requires m > 0 && p * m <= n
    ensures p <= n / m <= n && n / m * m <= n < (n / m + 1) * m
  {
    var q := n / m;
    assert n == q * m + n % m;
    assert (q + 1) * m == q * m + m;
    if q < p {
      MulMonotone(q + 1, p, m);
    }
    MulMonotone(1, m, q);
  }

  lemma TwoDigits(a: Digit, b: Digit)
    ensures Eval([a, b]) == b * RADIX + a
  {
    EvalOne(b);
    EvalCons(a, [b]);
    assert [a, b] == [a] + [b];
  }

  lemma ThreeDigits(a: Digit, b: Digit, c: Digit)
    ensures Eval([a, b, c]) == c * RADIX * RADIX + b * RADIX + a
  {
    TwoDigits(b, c);
    EvalCons(a, [b, c]);
    assert [a, b, c] == [a] + [b, c];
  }

  lemma Top3Is(s: seq<Digit>, i: int)
    ensures Top3(s, i) == At(s, i) * RADIX * RADIX + At(s, i - 1) * RADIX + At(s, i - 2)
  {
  }

  /** The left-hand side of the test has three digits at most. */
  lemma LengthOfProduct(s: seq<Digit>, v: nat, q: Digit)
    requires Clamped(s) && Eval(s) == v * q && v < RADIX * RADIX
    ensures |s| <= 3 && (|s| <= 2 ==> v * q < RADIX * RADIX)
  {
    hide Eval;
    SmallPowers();
    PowerStep(2);
    hide Power;
    MulMonotone(q, RADIX - 1, v);
    MulMonotone(v, RADIX * RADIX, RADIX - 1);
    EvalBound(s);
    if |s| >= 4 {
      ClampedBounds(s);
      PowerGrows(3, |s| - 1);
    } else if |s| <= 2 {
      PowerGrows(|s|, 2);
    }
  }

  /** The test of the correction loop, on whole numbers. */
  method TestTrial(x: seq<Digit>, y: seq<Digit>, i: nat, q: Digit, t1: MpInt, t2: MpInt) returns (tooBig: bool)
    requires y != [] && t1 != t2
    modifies t1, t2
    ensures tooBig ==> q * Top2(y, |y| - 1) > Top3(x, i)
    ensures !tooBig ==> q * Top2(y, |y| - 1) <= Top3(x, i) || q * Top2(y, |y| - 1) < RADIX * RADIX
  {
    hide Eval;
    hide Power;
    hide Top2;
    hide Top3;
    hide Clamped;
    hide At;
    var t := |y| - 1;
    t1.Zero();
    t1.dp := [At(y, t - 1), At(y, t)];
    TwoDigits(At(y, t - 1), At(y, t));
    Top2Is(y, t);
    Top2Below(y, t);
    t1.MulD(t1, q);
    t2.dp := [At(x, i - 2), At(x, i - 1), At(x, i)];
    ThreeDigits(At(x, i - 2), At(x, i - 1), At(x, i));
    Top3Is(x, i);
    TestedLengths(t1, Top2(y, t), q, t2, Top3(x, i));
    var r := MpInt.CmpMag(t1, t2);
    tooBig := r == Greater;
  }

  lemma Top2Below(s: seq<Digit>, i: int)
    ensures Top2(s, i) < RADIX * RADIX
  {
  }

  lemma TestedLengths(t1: MpInt, v: nat, q: Digit, t2: MpInt, w: nat)
    requires t1.Normal() && t1.Mag() == v * q && v < RADIX * RADIX && |t2.dp| == 3 && Eval(t2.dp) == w
    ensures |t1.dp| <= 3 && (|t1.dp| <= 2 ==> v * q < RADIX * RADIX) && t2.Mag() == w && v * q == q * v
  {
    LengthOfProduct(t1.dp, v, q);
  }

  /** Steps 3.1 and 3.2: estimate one digit of the quotient, and correct the estimate
      against three digits of x and two of y. */
  method TrialDigit(x: seq<Digit>, y: seq<Digit>, i: nat, t1: MpInt, t2: MpInt) returns (q: Digit)
    requires DigitPending(x, y, i) && t1 != t2
    modifies t1, t2
    ensures q * Unit(y, i) <= Eval(x) + Unit(y, i)
    ensures Eval(x) < (q + 1) * Unit(y, i)
  {
    UnitIsPositive(y, i);
    ghost var u, exact := Unit(y, i), Eval(x) / Unit(y, i);
    var t := |y| - 1;
    hide Eval;
    hide Power;
    hide Unit;
    hide Top2;
    hide Top3;
    hide Down;
    hide Up;
    hide At;
    QuotientOf(Eval(x), u, 0);
    DigitInRange(x, y, i, exact);
    q := FirstEstimate(x, y, i, exact);
    ghost var first := q;
    DownUp(q);
    q := Up(q);
    while true
      invariant exact <= Down(q) <= first
      decreases Down(q)
    {
      q := Down(q);
      var tooBig := TestTrial(x, y, i, q, t1, t2);
      if !tooBig {
        break;
      }
      DownUp(q);
      if q <= exact {
        MulMonotone(q, exact, Top2(y, t));
      }
    }
    MulMonotone(q, first, y[t]);
    TrialIsTight(x, y, i, q);
    MulMonotone(exact + 1, q + 1, u);
  }

  /** Strings that a comparison by length gets right: x is longer unless the product,
      shifted up, has a leading digit. */
  lemma ShiftedComparable(x: seq<Digit>, s: seq<Digit>, m: nat)
    requires Clamped(x) && Clamped(s) && m < |x|
    ensures Comparable(x, Zeros(m) + s)
  {
    if s != [] {
      var z := Zeros(m) + s;
      assert z[|z| - 1] == s[|s| - 1];
    }
  }

  lemma ShiftedUnit(e: int, q: int, p: int)
    ensures e * q * p == q * (e * p)
  {
  }

  /** Step 3 for one digit: x loses the digit's share of y, with one add-back at most. */
  method DivideDigit(x: MpInt, y: MpInt, q: MpInt, i: nat, t1: MpInt, t2: MpInt)
    requires x != y && x != q && x != t1 && x != t2 && y != q && y != t1 && y != t2 && q != t1 && q != t2 && t1 != t2
    requires DigitPending(x.dp, y.dp, i) && x.Normal() && !x.neg && !y.neg && |q.dp| > i - |y.dp|
    modifies x, q, t1, t2
    ensures x.Normal() && !x.neg && x.Mag() < Unit(y.dp, i)
    ensures |q.dp| == |old(q.dp)| && q.dp == old(q.dp)[i - |y.dp| := q.dp[i - |y.dp|]] && q.neg == old(q.neg)
    ensures old(x.Mag()) == x.Mag() + q.dp[i - |y.dp|] * Unit(y.dp, i)
  {
    hide Eval;
    hide Power;
    hide DigitPending;
    hide Down;
    PendingFacts(x.dp, y.dp, i);
    var m := i - |y.dp|;
    ghost var u, was, unit := x.Mag(), q.dp, Unit(y.dp, i);
    var v := TrialDigit(x.dp, y.dp, i, t1, t2);
    q.dp := q.dp[m := v];
    t1.MulD(y, v);
    ghost var product := t1.dp;
    t1.Lshd(m);
    ShiftedUnit(y.Mag(), v, Power(m));
    ShiftedComparable(x.dp, product, m);
    x.Sub(x, t1);
    ClampedZero(x.dp);
    OneMore(v, unit);
    if x.neg {
      t1.Copy(y);
      ghost var z := t1.dp;
      t1.Lshd(m);
      LongerComparable(x.dp, z, m);
      x.Add(x, t1);
      ClampedZero(x.dp);
      DownDigit(v, unit, u);
      q.dp := q.dp[m := Down(q.dp[m])];
    }
    assert q.dp == was[m := q.dp[m]];
  }

  lemma LongerComparable(x: seq<Digit>, s: seq<Digit>, m: nat)
    requires Clamped(x) && Clamped(s) && s != []
    ensures Comparable(x, Zeros(m) + s)
  {
    var z := Zeros(m) + s;
    assert z[|z| - 1] == s[|s| - 1];
  }

  lemma PendingFacts(x: seq<Digit>, y: seq<Digit>, i: nat)
    requires DigitPending(x, y, i)
    ensures Normalised(y) && Clamped(x) && Clamped(y) && |y| <= i <= |x| && |y| > 0
  {
  }

  lemma OneMore(v: int, unit: int)
    ensures (v + 1) * unit == v * unit + unit
  {
  }

  lemma DownDigit(v: Digit, unit: nat, x: nat)
    requires x < v * unit
    ensures v > 0 && Down(v) * unit == v * unit - unit
  {
    OneMore(-1, unit);
    OneMore(v - 1, unit);
    DownUp(v);
  }

  /** The state between quotient digits: k of them are still missing. */
  ghost predicate Unfinished(dividend: nat, x: nat, y: nat, q: seq<Digit>, k: nat) {
    && k <= |q|
    && x < y * Power(k)
    && dividend == x + y * Eval(q)
    && forall j :: 0 <= j < k ==> q[j] == 0
  }

  /** Setting a digit that was zero. */
  lemma DigitFound(dividend: nat, x: nat, y: nat, q: seq<Digit>, k: nat, after: nat, v: Digit)
    requires Unfinished(dividend, x, y, q, k) && k > 0
    requires after < y * Power(k - 1) && x == after + v * (y * Power(k - 1))
    ensures Unfinished(dividend, after, y, q[k - 1 := v], k - 1)
  {
    hide Eval;
    hide Power;
    EvalUpdate(q, k - 1, v);
    var p := Power(k - 1);
    assert y * (Eval(q) + p * v) == y * Eval(q) + v * (y * p);
  }

  /** A digit that is skipped really is zero. */
  lemma DigitSkipped(dividend: nat, x: seq<Digit>, y: seq<Digit>, q: seq<Digit>, i: nat)
    requires Normalised(y) && |y| <= i && |x| < i && Unfinished(dividend, Eval(x), Eval(y), q, i - |y| + 1)
    ensures Unfinished(dividend, Eval(x), Eval(y), q, i - |y|)
  {
    hide Eval;
    hide Power;
    EvalBound(x);
    PowerGrows(|x|, i - 1);
    PowerAdd(|y| - 1, i - |y|);
    ClampedBounds(y);
    MulMonotone(Power(|y| - 1), Eval(y), Power(i - |y|));
  }

  lemma DigitIsPending(dividend: nat, x: seq<Digit>, y: seq<Digit>, q: seq<Digit>, i: nat)
    requires Normalised(y) && Clamped(x) && |y| <= i <= |x|
    requires Unfinished(dividend, Eval(x), Eval(y), q, i - |y| + 1)
    ensures DigitPending(x, y, i)
  {
    hide Eval;
    hide Power;
    if |x| >= i + 2 {
      ClampedBounds(x);
      PowerGrows(i + 1, |x| - 1);
      EvalBound(y);
      PowerAdd(|y|, i - |y| + 1);
      MulMonotone(Eval(y), Power(|y|), Power(i - |y| + 1));
    }
  }

  /** The leading digit: y, moved up under x, goes into x three times at most. */
  method FirstDigit(x: MpInt, y: MpInt, q: MpInt, k: nat)
    requires x != y && x != q && y != q && x.Normal() && y.Normal() && !x.neg && !y.neg
    requires y.Mag() > 0 && x.Mag() < 4 * y.Mag() && k < |q.dp| && q.dp[k] == 0
    modifies x, q
    ensures x.Normal() && !x.neg && x.Mag() < y.Mag()
    ensures |q.dp| == |old(q.dp)| && q.dp == old(q.dp)[k := q.dp[k]] && q.neg == old(q.neg)
    ensures old(x.Mag()) == x.Mag() + q.dp[k] * y.Mag()
  {
    hide Eval;
    ghost var was := q.dp;
    assert was[k := 0] == was;
    while true
      invariant x.Normal() && !x.neg
      invariant |q.dp| == |was| && q.dp == was[k := q.dp[k]] && q.neg == old(q.neg)
      invariant old(x.Mag()) == x.Mag() + q.dp[k] * y.Mag()
      decreases x.Mag()
    {
      var r := MpInt.Cmp(x, y);
      if r == Less {
        break;
      }
      AtMostThree(old(x.Mag()), x.Mag(), y.Mag(), q.dp[k]);
      q.dp := q.dp[k := q.dp[k] + 1];
      x.Sub(x, y);
      ClampedZero(x.dp);
    }
  }

  lemma AtMostThree(dividend: nat, x: nat, y: nat, d: nat)
    requires dividend == x + d * y && dividend < 4 * y && x >= y
    ensures d < 3 && (d + 1) * y == d * y + y
  {
    if d >= 3 {
      MulMonotone(3, d, y);
    }
  }

  /** Once y stands under the top of x it is less than four times smaller. */
  lemma FirstDigitSmall(x: seq<Digit>, y: seq<Digit>)
    requires Normalised(y) && |x| >= |y|
    ensures Eval(x) < 4 * (Eval(y) * Power(|x| - |y|))
    ensures Eval(y) * Power(|x| - |y|) > 0
  {
    hide Eval;
    hide Power;
    var t, k := |y| - 1, |x| - |y|;
    EvalBound(x);
    EvalTop(y);
    PowerAdd(t, k);
    PowerStep(t + k);
    MulMonotone(0x400_0000, y[t], Power(t));
    MulMonotone(0x400_0000 * Power(t), Eval(y), Power(k));
    assert 0x400_0000 * Power(t) * Power(k) == 0x400_0000 * Power(t + k);
  }

  lemma ShiftedNormal(y: seq<Digit>, k: nat)
    requires Clamped(y) && y != []
    ensures var z := Zeros(k) + y; Clamped(z) && z != [] && z[k..] == y && |z| > k
  {
    var z := Zeros(k) + y;
    assert z[|z| - 1] == y[|y| - 1];
  }

  lemma FirstDigitFound(dividend: nat, x: nat, y: nat, q: seq<Digit>, k: nat)
    requires k < |q| && q == Zeros(|q|)[k := q[k]]
    requires x < y * Power(k) && dividend == x + q[k] * (y * Power(k))
    ensures Unfinished(dividend, x, y, q, k)
  {
    hide Eval;
    hide Power;
    EvalUpdate(Zeros(|q|), k, q[k]);
    EvalZeros(Zeros(|q|));
    assert y * (Power(k) * q[k]) == q[k] * (y * Power(k));
    forall j | 0 <= j < k
      ensures q[j] == 0
    {
      assert q[j] == Zeros(|q|)[j];
    }
  }

  lemma UnfinishedFits(dividend: nat, x: nat, y: nat, q: seq<Digit>, k: nat)
    requires Unfinished(dividend, x, y, q, k)
    ensures k <= |q|
  {
  }

  lemma AllFound(dividend: nat, x: nat, y: nat, q: seq<Digit>)
    requires Unfinished(dividend, x, y, q, 0)
    ensures x < y && dividend == x + y * Eval(q)
  {
    hide Eval;
  }

  lemma NormalisedClamped(y: seq<Digit>)
    requires Normalised(y)
    ensures Clamped(y) && y != []
  {
  }

  /** The two loops of mp_div on normalised operands. */
  method DivideLoops(x: MpInt, y: MpInt, q: MpInt)
    requires x != y && x != q && y != q && x.Normal() && y.Normal() && !x.neg && !y.neg
    requires Normalised(y.dp) && |x.dp| >= |y.dp| && |q.dp| > |x.dp| - |y.dp| && q.dp == Zeros(|q.dp|)
    modifies x, y, q
    ensures y.dp == old(y.dp) && y.neg == old(y.neg)
    ensures x.Normal() && !x.neg && x.Mag() < y.Mag()
    ensures old(x.Mag()) == x.Mag() + y.Mag() * Eval(q.dp) && q.neg == old(q.neg)
  {
    hide Eval;
    hide Power;
    hide DigitPending;
    hide Unfinished;
    hide Normalised;
    ghost var dividend, yd := x.Mag(), y.dp;
    var n, t := |x.dp| - 1, |y.dp| - 1;
    NormalisedClamped(y.dp);
    FirstDigitSmall(x.dp, y.dp);
    ShiftedNormal(y.dp, n - t);
    y.Lshd(n - t);
    FirstDigit(x, y, q, n - t);
    FirstDigitFound(dividend, x.Mag(), Eval(yd), q.dp, n - t);
    y.Rshd(n - t);
    var t1 := new MpInt();
    var t2 := new MpInt();
    var i := n;
    while i >= t + 1
      invariant t <= i && fresh(t1) && fresh(t2) && t1 != t2
      invariant x.Normal() && !x.neg && y.dp == yd && !y.neg && q.neg == old(q.neg)
      invariant Unfinished(dividend, x.Mag(), y.Mag(), q.dp, i - t)
      decreases i
    {
      if i > |x.dp| {
        DigitSkipped(dividend, x.dp, y.dp, q.dp, i);
      } else {
        DigitIsPending(dividend, x.dp, y.dp, q.dp, i);
        ghost var before, digits := x.Mag(), q.dp;
        UnfinishedFits(dividend, x.Mag(), y.Mag(), q.dp, i - t);
        DivideDigit(x, y, q, i, t1, t2);
        DigitFound(dividend, before, y.Mag(), digits, i - t, x.Mag(), q.dp[i - t - 1]);
      }
      i := i - 1;
    }
    AllFound(dividend, x.Mag(), y.Mag(), q.dp);
  }

  // -------------------------------------------------------------- normalisation

  lemma {:induction false} BitLength(d: nat) returns (m: nat)
    ensures HasBits(d, m) && (d > 0 ==> m > 0)
  {
    if d == 0 {
      m := 0;
      Pow2Zero();
    } else {
      var h := BitLength(d / 2);
      m := h + 1;
      Pow2Doubles(h);
      Pow2Zero();
      if h > 0 {
        Pow2Doubles(h - 1);
      }
    }
  }

  lemma DigitBits(d: Digit, m: nat)
    requires HasBits(d, m)
    ensures m <= 28 && (m == 27 ==> d >= 0x400_0000)
  {
    hide Pow2;
    Pow2Digit();
    Pow2Doubles(27);
    Pow2Doubles(26);
    if m > 28 {
      Pow2Monotone(28, m - 1);
    }
  }

  lemma TopHas27Bits(y: seq<Digit>, n: nat)
    requires Clamped(y) && y != [] && HasBits(Eval(y), n) && n % 28 == 27
    ensures Normalised(y)
  {
    hide Eval;
    hide HasBits;
    var m := BitLength(y[|y| - 1]);
    BitsOfNumber(y, m);
    BitsAreUnique(Eval(y), n, 28 * (|y| - 1) + m);
    DigitBits(y[|y| - 1], m);
  }

  lemma ShiftedHasBits(v: nat, n: nat, k: nat)
    requires HasBits(v, n) && n > 0
    ensures HasBits(v * Pow2(k), n + k)
  {
    hide Pow2;
    Pow2Add(n, k);
    Pow2Add(n - 1, k);
    MulMonotone(Pow2(n - 1), v, Pow2(k));
    MulStrict(v, Pow2(n), Pow2(k));
  }

  /** Shifts both operands until the divisor's leading digit has 27 bits. */
  method Normalise(x: MpInt, y: MpInt) returns (norm: nat)
    requires x != y && x.Normal() && y.Normal() && !x.neg && !y.neg && y.dp != []
    modifies x, y
    ensures x.Normal() && y.Normal() && !x.neg && !y.neg && Normalised(y.dp)
    ensures x.Mag() == old(x.Mag()) * Pow2(norm) && y.Mag() == old(y.Mag()) * Pow2(norm)
    ensures |x.dp| <= |old(x.dp)| + 1
  {
    hide Eval;
    hide Pow2;
    hide HasBits;
    Pow2Zero();
    ClampedZero(y.dp);
    var bits := CountBits(y.dp);
    norm := bits % DIGIT_BIT;
    if norm < DIGIT_BIT - 1 {
      norm := DIGIT_BIT - 1 - norm;
      ShiftedHasBits(y.Mag(), bits, norm);
      x.Mul2d(x, norm);
      y.Mul2d(y, norm);
      MulStrict(0, old(y.Mag()), Pow2(norm));
      EvalNone();
      TopHas27Bits(y.dp, bits + norm);
    } else {
      TopHas27Bits(y.dp, bits);
      norm := 0;
    }
  }

  /** Undoing the normalisation loses nothing: the remainder is a multiple of 2^norm. */
  lemma Denormalise(a: nat, b: nat, p: nat, q: nat, x: nat)
    requires p > 0 && a * p == x + b * p * q && x < b * p
    ensures a == x / p + b * q && x / p < b
  {
    var r := a - b * q;
    assert x == r * p by {
      assert (a - b * q) * p == a * p - b * q * p;
      assert b * q * p == b * p * q;
    }
    if r < 0 {
      MulMonotone(r, -1, p);
    }
    ModMultiple(r, p);
    if r >= b {
      MulMonotone(b, r, p);
    }
  }

  /** Magnitudes and signs of the results of a signed division. */
  lemma SignedResult(a: int, b: int, q: nat, r: nat, c: int, d: int)
    requires b != 0 && Abs(a) == r + Abs(b) * q && r < Abs(b)
    requires c == Unsigned(a, b, q) && d == if a < 0 then -(r as int) else r
    ensures c == Quotient(a, b) && d == Remainder(a, b)
  {
    SignedDivides(a, b, q, r);
    DivisionIsUnique(a, b, c, d);
  }

  /** Long division of magnitudes, on copies of the operands. */
  method DivideMagnitudes(a: MpInt, b: MpInt) returns (q: MpInt, x: MpInt, norm: nat)
    requires a.Normal() && b.Normal() && b.dp != [] && a.Mag() >= b.Mag()
    ensures fresh(q) && fresh(x) && q != x
    ensures x.Normal() && !x.neg && !q.neg
    ensures a.Mag() == x.Mag() / Pow2(norm) + b.Mag() * q.Mag() && x.Mag() / Pow2(norm) < b.Mag()
  {
    hide Eval;
    hide Pow2;
    hide Normalised;
    q := new MpInt();
    q.dp := Zeros(|a.dp| + 2);
    x := new MpInt.CopyOf(a);
    var y := new MpInt.CopyOf(b);
    x.neg, y.neg := false, false;
    norm := Normalise(x, y);
    MulMonotone(b.Mag(), a.Mag(), Pow2(norm));
    NormalisedClamped(y.dp);
    OrderedLengths(x.dp, y.dp);
    DivideLoops(x, y, q);
    Denormalise(a.Mag(), b.Mag(), Pow2(norm), q.Mag(), x.Mag());
  }

  /** mp_div: c and d, where wanted, become quotient and remainder; they may be the
      operands themselves. False is MP_VAL, the division by zero. */
  method Div(a: MpInt, b: MpInt, c: MpInt?, d: MpInt?) returns (ok: bool)
    requires a.Normal() && b.Normal() && (c != null ==> c != d)
    modifies if c == null then {} else {c}
    modifies if d == null then {} else {d}
    ensures ok <==> old(b.Value()) != 0
    ensures !ok && c != null ==> c.dp == old(c.dp) && c.neg == old(c.neg)
    ensures !ok && d != null ==> d.dp == old(d.dp) && d.neg == old(d.neg)
    ensures ok && c != null ==> c.Normal() && c.Value() == Quotient(old(a.Value()), old(b.Value()))
    ensures ok && d != null ==> d.Normal() && d.Value() == Remainder(old(a.Value()), old(b.Value()))
  {
    hide Eval;
    hide Pow2;
    hide Quotient;
    hide Remainder;
    ClampedZero(b.dp);
    ClampedZero(a.dp);
    ghost var va, vb, ma, mb := a.Value(), b.Value(), a.Mag(), b.Mag();
    if |b.dp| == 0 {
      return false;
    }
    ok := true;
    var r := MpInt.CmpMag(a, b);
    if r == Less {
      SignedResult(va, vb, 0, ma, 0, va);
      if d != null {
        d.Copy(a);
      }
      if c != null {
        c.Zero();
      }
      return;
    }
    var neg, aneg := a.neg != b.neg, a.neg;
    var q, x, norm := DivideMagnitudes(a, b);
    ghost var rest, quotient := x.Mag() / Pow2(norm), q.Mag();
    ClampedZero(x.dp);
    SignedResult(va, vb, quotient, rest, Unsigned(va, vb, quotient), if va < 0 then -(rest as int) else rest);
    x.neg := if |x.dp| == 0 then false else aneg;
    if c != null {
      q.Clamp();
      q.Exchange(c);
      NonzeroQuotient(ma, mb, quotient, rest, c.dp);
      c.neg := neg;
    }
    if d != null {
      x.Div2d(x, norm);
      ClampedZero(x.dp);
      x.Exchange(d);
    }
  }

  lemma NonzeroQuotient(a: nat, b: nat, q: nat, r: nat, s: seq<Digit>)
    requires a >= b > r && a == r + b * q && Eval(s) == q && Clamped(s)
    ensures s != []
  {
    EvalNone();
  }

  // ---------------------------------------------------- the bit-by-bit division

  /** One bit of the quotient. */
  lemma BitFound(dividend: nat, ta: nat, b: nat, q: nat, n: nat)
    requires dividend == ta + b * q && ta < b * Pow2(n + 1)
    ensures ta >= b * Pow2(n) ==> ta - b * Pow2(n) < b * Pow2(n)
    ensures b * (q + Pow2(n)) == b * q + b * Pow2(n)
  {
    Pow2Doubles(n);
    hide Pow2;
    assert b * (2 * Pow2(n)) == 2 * (b * Pow2(n));
  }

  lemma Halved(b: nat, n: nat)
    requires n > 0
    ensures b * Pow2(n) / 2 == b * Pow2(n - 1) && Pow2(n) / 2 == Pow2(n - 1)
  {
    Pow2Doubles(n - 1);
    hide Pow2;
    assert b * (2 * Pow2(n - 1)) == 2 * (b * Pow2(n - 1));
  }

  lemma FirstBit(a: nat, b: nat, m: nat, n: nat)
    requires HasBits(a, m) && HasBits(b, n) && 0 < n <= m
    ensures a < b * Pow2(m - n + 1)
  {
    hide Pow2;
    Pow2Add(n - 1, m - n + 1);
    MulMonotone(Pow2(n - 1), b, Pow2(m - n + 1));
  }

  lemma MoreBits(a: nat, b: nat, m: nat, n: nat)
    requires HasBits(a, m) && HasBits(b, n) && a >= b > 0
    ensures 0 < n <= m
  {
    hide Pow2;
    Pow2Zero();
    if m < n {
      Pow2Monotone(m, n - 1);
    }
  }

  /** One round: the bit is taken if what is left is no smaller than tb. */
  method TakeBit(ta: MpInt, tb: MpInt, tq: MpInt, q: MpInt)
    requires ta != tb && ta != tq && ta != q && tb != tq && tb != q && tq != q
    requires ta.Normal() && tb.Normal() && tq.Normal() && q.Normal() && !ta.neg && !tb.neg && !tq.neg && !q.neg
    modifies ta, tb, tq, q
    ensures ta.Normal() && tb.Normal() && tq.Normal() && q.Normal() && !ta.neg && !tb.neg && !tq.neg && !q.neg
    ensures tb.Mag() == old(tb.Mag()) / 2 && tq.Mag() == old(tq.Mag()) / 2
    ensures if old(tb.Mag()) <= old(ta.Mag())
            then ta.Mag() == old(ta.Mag()) - old(tb.Mag()) && q.Mag() == old(q.Mag()) + old(tq.Mag())
            else ta.Mag() == old(ta.Mag()) && q.Mag() == old(q.Mag())
  {
    hide Eval;
    PowerOfOne();
    hide Pow2;
    var r := MpInt.Cmp(tb, ta);
    if r != Greater {
      ta.Sub(ta, tb);
      q.Add(q, tq);
      ClampedZero(ta.dp);
      ClampedZero(q.dp);
    }
    tb.Div2d(tb, 1);
    tq.Div2d(tq, 1);
  }

  /** The quotient and remainder of magnitudes, one bit at a time. */
  method DivideBits(a: MpInt, b: MpInt) returns (q: MpInt, ta: MpInt)
    requires a.Normal() && b.Normal() && b.dp != [] && a.Mag() >= b.Mag()
    ensures fresh(q) && fresh(ta) && q != ta && q.Normal() && ta.Normal() && !q.neg && !ta.neg
    ensures a.Mag() == ta.Mag() + b.Mag() * q.Mag() && ta.Mag() < b.Mag()
  {
    hide Eval;
    Pow2Zero();
    hide Pow2;
    hide HasBits;
    hide Clamped;
    ClampedZero(b.dp);
    ghost var ma, mb := a.Mag(), b.Mag();
    ta := new MpInt.CopyOf(a);
    var tb := new MpInt.CopyOf(b);
    var tq := new MpInt();
    q := new MpInt();
    tq.Set(1);
    var ca := CountBits(a.dp);
    var cb := CountBits(b.dp);
    MoreBits(ma, mb, ca, cb);
    FirstBit(ma, mb, ca, cb);
    var n: int := ca - cb;
    ta.neg, tb.neg := false, false;
    tb.Mul2d(tb, n);
    tq.Mul2d(tq, n);
    while n >= 0
      invariant n >= -1 && fresh(ta) && fresh(tb) && fresh(tq) && fresh(q)
      invariant ta != tb && ta != tq && ta != q && tb != tq && tb != q && tq != q
      invariant ta.Normal() && tb.Normal() && tq.Normal() && q.Normal() && !ta.neg && !tb.neg && !tq.neg && !q.neg
      invariant n >= 0 ==> tb.Mag() == mb * Pow2(n) && tq.Mag() == Pow2(n)
      invariant ma == ta.Mag() + mb * q.Mag() && ta.Mag() < mb * Pow2(n + 1)
    {
      BitFound(ma, ta.Mag(), mb, q.Mag(), n);
      TakeBit(ta, tb, tq, q);
      if n > 0 {
        Halved(mb, n);
      }
      n := n - 1;
    }
  }

  lemma PowerOfOne()
    ensures Pow2(1) == 2
  {
  }

  /** The slower mp_div keeps the same contract. */
  method DivBitByBit(a: MpInt, b: MpInt, c: MpInt?, d: MpInt?) returns (ok: bool)
    requires a.Normal() && b.Normal() && (c != null ==> c != d)
    modifies if c == null then {} else {c}
    modifies if d == null then {} else {d}
    ensures ok <==> old(b.Value()) != 0
    ensures !ok && c != null ==> c.dp == old(c.dp) && c.neg == old(c.neg)
    ensures !ok && d != null ==> d.dp == old(d.dp) && d.neg == old(d.neg)
    ensures ok && c != null ==> c.Normal() && c.Value() == Quotient(old(a.Value()), old(b.Value()))
    ensures ok && d != null ==> d.Normal() && d.Value() == Remainder(old(a.Value()), old(b.Value()))
  {
    hide Eval;
    hide Quotient;
    hide Remainder;
    ClampedZero(b.dp);
    ClampedZero(a.dp);
    ghost var va, vb := a.Value(), b.Value();
    if |b.dp| == 0 {
      return false;
    }
    ok := true;
    var r := MpInt.CmpMag(a, b);
    if r == Less {
      SignedResult(va, vb, 0, a.Mag(), 0, va);
      if d != null {
        d.Copy(a);
      }
      if c != null {
        c.Zero();
      }
      return;
    }
    var n, n2 := a.neg, a.neg != b.neg;
    var q, ta := DivideBits(a, b);
    ghost var rest, quotient := ta.Mag(), q.Mag();
    SignedResult(va, vb, quotient, rest, Unsigned(va, vb, quotient), if va < 0 then -(rest as int) else rest);
    ClampedZero(ta.dp);
    ClampedZero(q.dp);
    if c != null {
      c.Exchange(q);
      c.neg := if |c.dp| == 0 then false else n2;
    }
    if d != null {
      d.Exchange(ta);
      d.neg := if |d.dp| == 0 then false else n;
    }
  }
}
