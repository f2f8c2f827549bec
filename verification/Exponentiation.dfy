/** mp_exptmod_fast: left-to-right sliding-window exponentiation, with Montgomery reduction
    (redmode 0) or folding reduction for moduli near a power of two (redmode 2). */
module Exponentiation {
  import opened Arith
  import opened Digits
  import opened DigitLoops
  import opened BitShifts
  import opened Bits
  import opened BigInt
  import opened Division
  import opened Columns
  import opened Multiply
  import opened Reductions
  import opened Squaring
  import opened ToomParts
  import opened Congruence
  import opened FoldingReduction
  import opened Montgomery
  import opened MontgomerySetup

  // ---------------------------------------------------------------- what a number stands for

  /** Factors of the scale can be cancelled. */
  lemma CancelScale(x: int, y: int, redmode: nat, n: seq<Digit>, mp: Digit)
    requires Ready(redmode, n, mp)
    requires Congruent(x * Scale(redmode, n), y * Scale(redmode, n), Eval(n))
    ensures Congruent(x, y, Eval(n))
  {
    hide Eval;
    hide Power;
    hide Congruent;
    if redmode == 0 {
      OddEval(n);
      PowerIsPow2(|n|);
      CancelPow2(x, y, 28 * |n|, Eval(n));
    }
  }

  /** x is a residue; when all goes well it stands for w, that is, it is w times the scale, reduced. */
  ghost predicate Holds(x: MpInt, w: int, redmode: nat, n: seq<Digit>, fit: bool)
    reads x
  {
    Residue(x, n) && (fit ==> Congruent(x.Mag(), w * Scale(redmode, n), Eval(n)))
  }

  /** Reducing the product of what stands for u and v gives what stands for u * v. */
  lemma ReducedProduct(r: int, x: int, y: int, u: int, v: int, redmode: nat, n: seq<Digit>, mp: Digit)
    requires Ready(redmode, n, mp)
    requires Congruent(x, u * Scale(redmode, n), Eval(n)) && Congruent(y, v * Scale(redmode, n), Eval(n))
    requires Congruent(r * Scale(redmode, n), x * y, Eval(n))
    ensures Congruent(r, u * v * Scale(redmode, n), Eval(n))
  {
    hide Congruent;
    hide Ready;
    hide Scale;
    var s, m := Scale(redmode, n), Eval(n);
    Product(x, u * s, y, v * s, m);
    Transitive(r * s, x * y, u * s * (v * s), m);
    MiddleFactor(u, s, v);
    CancelScale(r, u * v * s, redmode, n, mp);
  }

  lemma MiddleFactor(u: int, s: int, v: int)
    ensures u * s * (v * s) == u * v * s * s
  {
    assert u * s * (v * s) == u * (s * (v * s)) && u * v * s * s == u * (v * s * s);
    assert s * (v * s) == v * s * s;
  }

  // ------------------------------------------------------------- when all goes well

  /** The digits of g^i * R mod n. */
  ghost function PowerLength(g: int, i: nat, n: seq<Digit>): nat
    requires Eval(n) > 0
  {
    Length(Pow(g, i) * Power(|n|) % Eval(n))
  }

  /** No power of g times a table entry is multiplied by columns. */
  ghost predicate NoneByColumns(g: int, n: seq<Digit>)
    requires Eval(n) > 0
  {
    forall i: nat, j: nat :: 1 <= j < TAB_SIZE ==> !ByColumns(PowerLength(g, i, n), PowerLength(g, j, n))
  }

  /** What keeps every multiplication and reduction right. Montgomery reduction: the modulus is short
      enough for the reduction by columns, or the unset words are zeros, or no product is formed by
      columns. Folding: the modulus is one of those that can be folded by. */
  ghost predicate StepsFit(unset: nat -> Cell, g: int, redmode: nat, n: seq<Digit>)
    requires Eval(n) > 0
  {
    if redmode == 0 then |n| < 256 || (forall t: nat :: unset(t) == 0) || NoneByColumns(g, n)
    else FoldsModulus(Eval(n))
  }

  /** The constant is set up and, when all is to go well, every step is right. */
  ghost predicate Prepared(unset: nat -> Cell, g: int, fit: bool, redmode: nat, n: seq<Digit>, mp: Digit) {
    Ready(redmode, n, mp) && (fit ==> StepsFit(unset, g, redmode, n))
  }

  lemma PreparedIs(unset: nat -> Cell, g: int, fit: bool, redmode: nat, n: seq<Digit>, mp: Digit)
    ensures Prepared(unset, g, fit, redmode, n, mp) <==>
            Ready(redmode, n, mp) && Eval(n) > 1 && (fit ==> StepsFit(unset, g, redmode, n))
  {
  }

  lemma HoldsLength(x: MpInt, g: int, i: nat, n: seq<Digit>)
    requires Eval(n) > 0 && Holds(x, Pow(g, i), 0, n, true)
    ensures |x.dp| == PowerLength(g, i, n)
  {
    hide Eval;
    hide Power;
    hide Congruent;
    hide Length;
    hide Pow;
    var v := Pow(g, i) * Power(|n|);
    Symmetric(x.Mag(), v, Eval(n));
    IsRemainder(v, x.Mag(), Eval(n));
    DigitsLength(x.dp);
  }

  /** Then each multiplication of powers is right. */
  lemma PowerProductFits(x: MpInt, y: MpInt, g: int, i: nat, j: nat, redmode: nat, n: seq<Digit>,
                         unset: nat -> Cell, t: nat)
    requires Eval(n) > 0 && StepsFit(unset, g, redmode, n) && 1 <= j < 256
    requires Holds(x, Pow(g, i), redmode, n, true) && Holds(y, Pow(g, j), redmode, n, true)
    ensures StepFits(redmode, n, Left(|x.dp|, |y.dp|, unset(t)))
  {
    if redmode == 0 {
      HoldsLength(x, g, i, n);
      HoldsLength(y, g, j, n);
    }
  }

  lemma SquareFits(g: int, redmode: nat, n: seq<Digit>, unset: nat -> Cell)
    requires Eval(n) > 0 && StepsFit(unset, g, redmode, n)
    ensures StepFits(redmode, n, 0)
  {
  }

  /** g^i times g^j. */
  method TimesPower(x: MpInt, y: MpInt, z: MpInt, n: MpInt, mp: Digit, redmode: nat, unset: nat -> Cell, t: nat,
                    ghost g: int, ghost fit: bool, ghost i: nat, ghost j: nat)
    requires z != n && n.Normal() && Prepared(unset, g, fit, redmode, n.dp, mp) && 1 <= j < 256
    requires Holds(x, Pow(g, i), redmode, n.dp, fit) && Holds(y, Pow(g, j), redmode, n.dp, fit)
    modifies z
    ensures Holds(z, Pow(g, i + j), redmode, n.dp, fit)
  {
    hide *;
    PreparedIs(unset, g, fit, redmode, n.dp, mp);
    MagIs(n);
    ghost var a, b := x.Mag(), y.Mag();
    HoldsIs(x, Pow(g, i), redmode, n.dp, fit);
    HoldsIs(y, Pow(g, j), redmode, n.dp, fit);
    if fit {
      PowerProductFits(x, y, g, i, j, redmode, n.dp, unset, t);
    }
    MulReduce(x, y, z, n, mp, redmode, unset(t));
    if fit {
      ReducedProduct(z.Mag(), a, b, Pow(g, i), Pow(g, j), redmode, n.dp, mp);
      PowAdd(g, i, j);
    }
    HoldsIs(z, Pow(g, i + j), redmode, n.dp, fit);
  }

  /** g^e squared. */
  method SquarePower(x: MpInt, n: MpInt, mp: Digit, redmode: nat, ghost unset: nat -> Cell, ghost g: int,
                     ghost fit: bool, ghost e: nat)
    requires x != n && n.Normal() && Prepared(unset, g, fit, redmode, n.dp, mp)
    requires Holds(x, Pow(g, e), redmode, n.dp, fit)
    modifies x
    ensures Holds(x, Pow(g, e + e), redmode, n.dp, fit)
  {
    hide *;
    PreparedIs(unset, g, fit, redmode, n.dp, mp);
    MagIs(n);
    ghost var a := x.Mag();
    HoldsIs(x, Pow(g, e), redmode, n.dp, fit);
    if fit {
      SquareFits(g, redmode, n.dp, unset);
    }
    SqrReduce(x, n, mp, redmode);
    if fit {
      ReducedProduct(x.Mag(), a, a, Pow(g, e), Pow(g, e), redmode, n.dp, mp);
      PowAdd(g, e, e);
    }
    HoldsIs(x, Pow(g, e + e), redmode, n.dp, fit);
  }

  lemma HoldsIs(x: MpInt, w: int, redmode: nat, n: seq<Digit>, fit: bool)
    ensures Holds(x, w, redmode, n, fit) <==>
            Residue(x, n) && (fit ==> Congruent(x.Mag(), w * Scale(redmode, n), Eval(n)))
  {
  }

  // -------------------------------------------------------------------- exponents

  function Pow(g: int, e: nat): int {
    if e == 0 then 1 else g * Pow(g, e - 1)
  }

  lemma {:induction false} PowAdd(g: int, m: nat, n: nat)
    ensures Pow(g, m + n) == Pow(g, m) * Pow(g, n)
    decreases m
  {
    if m > 0 {
      PowAdd(g, m - 1, n);
      assert g * (Pow(g, m - 1) * Pow(g, n)) == g * Pow(g, m - 1) * Pow(g, n);
    }
  }

  lemma PowOne(g: int)
    ensures Pow(g, 0) == 1 && Pow(g, 1) == g
  {
    assert Pow(g, 1) == g * Pow(g, 0);
  }

  /** x := x^(2^count). */
  method SquareTimes(x: MpInt, count: nat, n: MpInt, mp: Digit, redmode: nat,
                     ghost unset: nat -> Cell, ghost g: int, ghost fit: bool, ghost e: nat)
    requires x != n && n.Normal() && Prepared(unset, g, fit, redmode, n.dp, mp)
    requires Holds(x, Pow(g, e), redmode, n.dp, fit)
    modifies x
    ensures Holds(x, Pow(g, e * Pow2(count)), redmode, n.dp, fit)
  {
    hide *;
    Pow2Zero();
    ghost var d := e;
    assert e * 1 == e;
    var i := 0;
    while i < count
      invariant i <= count && d == e * Pow2(i) && Holds(x, Pow(g, d), redmode, n.dp, fit)
    {
      Pow2Doubles(i);
      TwiceIs(e, Pow2(i));
      SquarePower(x, n, mp, redmode, unset, g, fit, d);
      d, i := d + d, i + 1;
    }
  }

  lemma TwiceIs(e: int, p: int)
    ensures e * (2 * p) == e * p + e * p
  {
  }

  // ------------------------------------------------------------------------ table

  const TAB_SIZE := 256

  /** The indexes of the table that are computed: 1 and the upper half. */
  predicate Filled(i: int, winsize: nat)
    requires winsize > 0
  {
    i == 1 || Pow2(winsize - 1) <= i < Pow2(winsize)
  }

  /** Entry i stands for g^i; entries never computed are never there. */
  ghost predicate TableHolds(M: seq<MpInt?>, upto: int, winsize: nat, g: int, fit: bool, redmode: nat, n: seq<Digit>)
    requires winsize > 0
    reads set i | 0 <= i < |M| && M[i] != null :: M[i]
  {
    && |M| == TAB_SIZE
    && (forall i :: 0 <= i < |M| ==>
          if Filled(i, winsize) && i < upto then M[i] != null && Holds(M[i], Pow(g, i), redmode, n, fit)
          else M[i] == null)
  }

  lemma TableSkips(M: seq<MpInt?>, from: int, to: int, winsize: nat, g: int, fit: bool, redmode: nat, n: seq<Digit>)
    requires winsize > 0 && TableHolds(M, from, winsize, g, fit, redmode, n) && from <= to
    requires forall i :: from <= i < to ==> !Filled(i, winsize)
    ensures TableHolds(M, to, winsize, g, fit, redmode, n)
  {
  }

  lemma TableGains(M: seq<MpInt?>, i: nat, x: MpInt, winsize: nat, g: int, fit: bool, redmode: nat, n: seq<Digit>)
    requires winsize > 0 && TableHolds(M, i, winsize, g, fit, redmode, n) && i < 256
    requires Filled(i, winsize) && Holds(x, Pow(g, i), redmode, n, fit)
    ensures i < |M| && TableHolds(M[i := x], i + 1, winsize, g, fit, redmode, n)
  {
    hide Holds;
    hide Filled;
    hide Pow;
  }

  /** Only computed entries are ever looked up, and they are there. */
  lemma TableEntry(M: seq<MpInt?>, i: nat, winsize: nat, g: int, fit: bool, redmode: nat, n: seq<Digit>)
    requires 2 <= winsize <= 8 && TableHolds(M, Pow2(winsize), winsize, g, fit, redmode, n)
    requires i == 1 || Pow2(winsize - 1) <= i < Pow2(winsize)
    ensures i < |M| && M[i] != null && Holds(M[i], Pow(g, i), redmode, n, fit)
  {
    WindowPowers(winsize);
    hide Holds;
    hide Pow;
    assert Filled(i, winsize);
  }

  lemma WindowPowers(winsize: nat)
    requires 2 <= winsize <= 8
    ensures 2 <= Pow2(winsize - 1) < Pow2(winsize) <= 256 && Pow2(winsize) == 2 * Pow2(winsize - 1)
  {
    Pow2Monotone(1, winsize - 1);
    Pow2Doubles(winsize - 1);
    Pow2Monotone(winsize, 8);
    PowByte();
    PowerOfOne();
  }

  /** mp_mod for a positive modulus: c becomes a mod b. */
  method Mod(a: MpInt, b: MpInt, c: MpInt)
    requires a.Normal() && b.Normal() && !b.neg && b.Mag() > 0 && c != b
    modifies c
    ensures c.Normal() && !c.neg && c.Mag() < b.Mag() && Congruent(c.Mag(), old(a.Value()), b.Mag())
  {
    hide Eval;
    hide Congruent;
    hide Quotient;
    hide Remainder;
    ghost var v, m := a.Value(), b.Mag();
    QuotientDivides(v, m);
    ghost var q := Quotient(v, m);
    var t := new MpInt();
    var ok := Div(a, b, null, t);
    NegatedMultiple(q, m);
    CongruentBy(t.Value(), v, m, -q);
    ClampedZero(t.dp);
    if t.neg != b.neg {
      c.Add(b, t);
      CongruentBy(c.Value(), t.Value(), m, 1);
      Transitive(c.Value(), t.Value(), v, m);
      ClampedZero(c.dp);
    } else {
      t.Exchange(c);
    }
  }

  /** The starting value stands for 1. */
  method StartValue(res: MpInt, n: MpInt, mp: Digit, redmode: nat)
    requires res != n && n.Normal() && !n.neg && Ready(redmode, n.dp, mp)
    modifies res
    ensures Holds(res, 1, redmode, n.dp, true) && (redmode == 0 ==> res.Mag() == Power(|n.dp|) % n.Mag())
  {
    hide Eval;
    hide Power;
    hide Congruent;
    hide Stuck;
    if redmode == 0 {
      OddIsNotStuck(n.dp);
      CalcNormalization(res, n);
      RemainderIs(Power(|n.dp|), n.Mag());
      assert 1 * Power(|n.dp|) == Power(|n.dp|);
    } else {
      res.Set(1);
      Reflexive(1, n.Mag());
    }
  }

  lemma OddIsNotStuck(n: seq<Digit>)
    requires n != [] && n[0] % 2 == 1 && Eval(n) > 1
    ensures !Stuck(n)
  {
    hide Eval;
    OddEval(n);
    if IsPowerOfTwo(Eval(n)) {
      var j: nat :| Eval(n) == Pow2(j);
      EvenPower(j);
    }
  }

  lemma EvenPower(j: nat)
    ensures j == 0 || Pow2(j) % 2 == 0
    ensures Pow2(0) == 1
  {
  }

  /** The product of the base with R mod n is right. */
  ghost predicate BaseFits(redmode: nat, neg: bool, g: nat, r: nat) {
    redmode == 0 && neg ==> Exact(g, r)
  }

  /** M[1]: the base, times the scale, unless the product is one of those that come out wrong. */
  method FirstEntry(G: MpInt, res: MpInt, n: MpInt, mp: Digit, redmode: nat, ghost fit: bool) returns (m: MpInt)
    requires G.Normal() && n.Normal() && !n.neg && Ready(redmode, n.dp, mp) && Holds(res, 1, redmode, n.dp, true)
    requires fit ==> BaseFits(redmode, G.neg, G.Mag(), res.Mag())
    ensures fresh(m) && Holds(m, G.Value(), redmode, n.dp, fit)
  {
    hide Eval;
    hide Power;
    hide Congruent;
    hide Exact;
    ghost var g := G.Value();
    ghost var s, r := Scale(redmode, n.dp), res.Mag();
    m := new MpInt();
    if redmode == 0 {
      var t := new MpInt();
      Mul(G, res, t);
      Mod(t, n, m);
      if fit {
        assert 1 * s == s;
        Reflexive(g, n.Mag());
        Product(g, g, r, 1 * s, n.Mag());
        Transitive(m.Mag(), g * r, g * s, n.Mag());
      }
    } else {
      Mod(G, n, m);
      assert g * s == g;
    }
  }

  lemma NoEntryYet(winsize: nat, g: int, fit: bool, redmode: nat, n: seq<Digit>)
    requires 2 <= winsize <= 8
    ensures TableHolds(seq(256, i => null), 1, winsize, g, fit, redmode, n)
  {
    WindowPowers(winsize);
  }

  lemma FilledIs(i: int, winsize: nat)
    requires winsize > 0
    ensures Filled(i, winsize) <==> i == 1 || Pow2(winsize - 1) <= i < Pow2(winsize)
  {
  }

  /** M[half] = g^half: a copy of M[1], squared winsize - 1 times. */
  method MiddleEntry(first: MpInt, n: MpInt, mp: Digit, redmode: nat, ghost unset: nat -> Cell, winsize: nat,
                     ghost g: int, ghost fit: bool)
    returns (x: MpInt)
    requires n.Normal() && Prepared(unset, g, fit, redmode, n.dp, mp) && Holds(first, g, redmode, n.dp, fit)
    requires 2 <= winsize <= 8
    ensures fresh(x) && Holds(x, Pow(g, Pow2(winsize - 1)), redmode, n.dp, fit)
  {
    hide *;
    PowOne(g);
    x := new MpInt.CopyOf(first);
    CopyHolds(first, x, g, redmode, n.dp, fit);
    SquareTimes(x, winsize - 1, n, mp, redmode, unset, g, fit, 1);
    assert 1 * Pow2(winsize - 1) == Pow2(winsize - 1);
  }

  /** The rest of the upper half: each entry is the one before it times M[1]. */
  method UpperHalf(M0: seq<MpInt?>, first: MpInt, middle: MpInt, n: MpInt, mp: Digit, redmode: nat,
                   unset: nat -> Cell, winsize: nat, ghost g: int, ghost fit: bool)
    returns (M: seq<MpInt?>)
    requires n.Normal() && Prepared(unset, g, fit, redmode, n.dp, mp) && 2 <= winsize <= 8
    requires TableHolds(M0, Pow2(winsize - 1) + 1, winsize, g, fit, redmode, n.dp)
    requires Holds(first, g, redmode, n.dp, fit) && Holds(middle, Pow(g, Pow2(winsize - 1)), redmode, n.dp, fit)
    ensures TableHolds(M, Pow2(winsize), winsize, g, fit, redmode, n.dp)
    ensures forall j :: 0 <= j < |M| && M[j] != null ==> fresh(M[j]) || M[j] in M0
  {
    hide *;
    WindowPowers(winsize);
    var i: nat := Pow2(winsize - 1) + 1;
    var end: nat := Pow2(winsize);
    PowOne(g);
    M := M0;
    var x := middle;
    while i < end
      invariant Pow2(winsize - 1) < i <= end
      invariant TableHolds(M, i, winsize, g, fit, redmode, n.dp)
      invariant Holds(x, Pow(g, i - 1), redmode, n.dp, fit)
      invariant forall j :: 0 <= j < |M| && M[j] != null ==> fresh(M[j]) || M[j] in M0
    {
      var y := new MpInt();
      TimesPower(x, first, y, n, mp, redmode, unset, i, g, fit, i - 1, 1);
      FilledIs(i, winsize);
      TableGains(M, i, y, winsize, g, fit, redmode, n.dp);
      M := M[i := y];
      x, i := y, i + 1;
    }
  }

  /** M[1], then M[2^(winsize-1)] by squaring, then the rest of the upper half by
      multiplying with M[1]. */
  method BuildTable(G: MpInt, res: MpInt, n: MpInt, mp: Digit, redmode: nat, unset: nat -> Cell,
                    winsize: nat, ghost fit: bool)
    returns (M: seq<MpInt?>)
    requires G.Normal() && n.Normal() && !n.neg && Prepared(unset, G.Value(), fit, redmode, n.dp, mp)
    requires Holds(res, 1, redmode, n.dp, true) && 2 <= winsize <= 8
    requires fit ==> BaseFits(redmode, G.neg, G.Mag(), res.Mag())
    ensures TableHolds(M, Pow2(winsize), winsize, G.Value(), fit, redmode, n.dp)
    ensures forall i :: 0 <= i < |M| && M[i] != null ==> fresh(M[i])
  {
    hide *;
    WindowPowers(winsize);
    var half: nat := Pow2(winsize - 1);
    var none := seq(256, i => null);
    ghost var g := G.Value();
    PreparedIs(unset, g, fit, redmode, n.dp, mp);
    var first := FirstEntry(G, res, n, mp, redmode, fit);
    PowOne(g);
    NoEntryYet(winsize, g, fit, redmode, n.dp);
    FilledIs(1, winsize);
    TableGains(none, 1, first, winsize, g, fit, redmode, n.dp);
    SkipToHalf(none[1 := first], winsize, g, fit, redmode, n.dp);
    var middle := MiddleEntry(first, n, mp, redmode, unset, winsize, g, fit);
    FilledIs(half, winsize);
    TableGains(none[1 := first], half, middle, winsize, g, fit, redmode, n.dp);
    M := UpperHalf(none[1 := first][half := middle], first, middle, n, mp, redmode, unset, winsize, g, fit);
  }

  lemma SkipToHalf(M: seq<MpInt?>, winsize: nat, g: int, fit: bool, redmode: nat, n: seq<Digit>)
    requires 2 <= winsize <= 8 && TableHolds(M, 2, winsize, g, fit, redmode, n)
    ensures TableHolds(M, Pow2(winsize - 1), winsize, g, fit, redmode, n)
  {
    WindowPowers(winsize);
    TableSkips(M, 2, Pow2(winsize - 1), winsize, g, fit, redmode, n);
  }

  lemma CopyHolds(x: MpInt, y: MpInt, w: int, redmode: nat, n: seq<Digit>, fit: bool)
    requires Holds(x, w, redmode, n, fit) && y.dp == x.dp && y.neg == x.neg
    ensures Holds(y, w, redmode, n, fit)
  {
  }

  // --------------------------------------------------------------- sliding window

  /** mode 0: only leading zeros so far; 1: no open window; 2: bitcpy bits wait in bitbuf. */
  datatype Window = Window(mode: nat, bitcpy: nat, bitbuf: nat)

  /** res stands for g^e; the open window holds the bits w. */
  ghost predicate Open(s: Window, winsize: nat, e: nat, w: nat) {
    && winsize >= 2 && s.mode <= 2
    && (s.mode == 0 ==> s.bitcpy == 0 && e == 0 && w == 0)
    && (s.mode == 1 ==> s.bitcpy == 0 && w == 0)
    && (s.mode == 2 ==> 0 < s.bitcpy < winsize && Pow2(s.bitcpy - 1) <= w < Pow2(s.bitcpy))
    && s.bitcpy <= winsize && s.bitbuf == w * Pow2(winsize - s.bitcpy)
  }

  /** The exponent bits consumed so far, as a number. */
  ghost function Consumed(s: Window, e: nat, w: nat): nat {
    e * Pow2(s.bitcpy) + w
  }

  lemma ConsumedIs(s: Window, e: nat, w: nat)
    ensures Consumed(s, e, w) == e * Pow2(s.bitcpy) + w
  {
  }

  /** One bit goes into the window. */
  lemma BitEnters(s: Window, winsize: nat, e: nat, w: nat, y: nat)
    requires Open(s, winsize, e, w) && y <= 1 && (s.mode != 2 ==> y == 1)
    ensures var t := Window(2, s.bitcpy + 1, s.bitbuf + y * Pow2(winsize - (s.bitcpy + 1)));
            var w' := 2 * w + y;
            && s.bitcpy + 1 <= winsize
            && Pow2(s.bitcpy) <= w' < Pow2(s.bitcpy + 1)
            && t.bitbuf == w' * Pow2(winsize - (s.bitcpy + 1))
            && Consumed(t, e, w') == 2 * Consumed(s, e, w) + y
  {
    Pow2Zero();
    Pow2Doubles(s.bitcpy);
    Pow2Doubles(winsize - (s.bitcpy + 1));
    if s.bitcpy > 0 {
      Pow2Doubles(s.bitcpy - 1);
    }
    hide Pow2;
    EnterValue(w, y, Pow2(winsize - (s.bitcpy + 1)), e, Pow2(s.bitcpy));
  }

  lemma EnterValue(w: int, y: int, p: int, e: int, q: int)
    ensures w * (2 * p) + y * p == (2 * w + y) * p
    ensures e * (2 * q) + (2 * w + y) == 2 * (e * q + w) + y
  {
    assert w * (2 * p) == 2 * (w * p);
    assert (2 * w + y) * p == 2 * (w * p) + y * p;
    assert e * (2 * q) == 2 * (e * q);
  }

  /** What the window machine keeps: res stands for g^e and the table is complete. */
  ghost predicate Machine(res: MpInt, M: seq<MpInt?>, n: seq<Digit>, mp: Digit, redmode: nat, unset: nat -> Cell,
                          winsize: nat, g: int, fit: bool, e: nat)
    reads res, set i | 0 <= i < |M| && M[i] != null :: M[i]
  {
    && 2 <= winsize <= 8 && Prepared(unset, g, fit, redmode, n, mp) && Holds(res, Pow(g, e), redmode, n, fit)
    && TableHolds(M, Pow2(winsize), winsize, g, fit, redmode, n) && res !in M
  }

  lemma MachineFacts(res: MpInt, M: seq<MpInt?>, n: seq<Digit>, mp: Digit, redmode: nat, unset: nat -> Cell,
                     winsize: nat, g: int, fit: bool, e: nat)
    requires 2 <= winsize <= 8
    ensures Machine(res, M, n, mp, redmode, unset, winsize, g, fit, e)
            <==> Prepared(unset, g, fit, redmode, n, mp) && Holds(res, Pow(g, e), redmode, n, fit)
                 && TableHolds(M, Pow2(winsize), winsize, g, fit, redmode, n) && res !in M
  {
  }

  /** A full window: square winsize times, multiply once. */
  method Flush(res: MpInt, M: seq<MpInt?>, n: MpInt, mp: Digit, redmode: nat, unset: nat -> Cell, turn: nat,
               winsize: nat, bitbuf: nat, ghost g: int, ghost fit: bool, ghost e: nat)
    requires res != n && n.Normal() && 2 <= winsize <= 8
    requires Machine(res, M, n.dp, mp, redmode, unset, winsize, g, fit, e)
    requires Pow2(winsize - 1) <= bitbuf < Pow2(winsize)
    modifies res
    ensures Machine(res, M, n.dp, mp, redmode, unset, winsize, g, fit, e * Pow2(winsize) + bitbuf)
  {
    hide *;
    MachineFacts(res, M, n.dp, mp, redmode, unset, winsize, g, fit, e);
    SquareTimes(res, winsize, n, mp, redmode, unset, g, fit, e);
    WindowPowers(winsize);
    TableEntry(M, bitbuf, winsize, g, fit, redmode, n.dp);
    TimesPower(res, M[bitbuf], res, n, mp, redmode, unset, turn, g, fit, e * Pow2(winsize), bitbuf);
    MachineFacts(res, M, n.dp, mp, redmode, unset, winsize, g, fit, e * Pow2(winsize) + bitbuf);
  }

  /** A zero outside the window: square once. */
  method SquareOnce(res: MpInt, M: seq<MpInt?>, n: MpInt, mp: Digit, redmode: nat, ghost unset: nat -> Cell,
                    winsize: nat, ghost g: int, ghost fit: bool, ghost e: nat)
    requires res != n && n.Normal() && 2 <= winsize <= 8
    requires Machine(res, M, n.dp, mp, redmode, unset, winsize, g, fit, e)
    modifies res
    ensures Machine(res, M, n.dp, mp, redmode, unset, winsize, g, fit, 2 * e)
  {
    hide *;
    MachineFacts(res, M, n.dp, mp, redmode, unset, winsize, g, fit, e);
    SquarePower(res, n, mp, redmode, unset, g, fit, e);
    assert e + e == 2 * e;
    MachineFacts(res, M, n.dp, mp, redmode, unset, winsize, g, fit, 2 * e);
  }

  lemma Closed(winsize: nat, e: nat)
    requires winsize >= 2
    ensures Open(Window(1, 0, 0), winsize, e, 0) && Consumed(Window(1, 0, 0), e, 0) == e
  {
    Pow2Zero();
    hide Pow2;
    assert e * 1 == e && 0 * Pow2(winsize - 0) == 0;
  }

  lemma OpenFacts(s: Window, winsize: nat, e: nat, w: nat)
    requires Open(s, winsize, e, w)
    ensures s.mode <= 2 && s.bitcpy < winsize
    ensures s.mode != 2 ==> s.bitcpy == 0 && w == 0 && Consumed(s, e, w) == e
    ensures s.mode == 0 ==> e == 0
  {
    Pow2Zero();
    assert e * 1 == e;
  }

  /** The body of the loop: one exponent bit. */
  method TakeBit(y: nat, s: Window, res: MpInt, M: seq<MpInt?>, n: MpInt, mp: Digit, redmode: nat,
                 unset: nat -> Cell, turn: nat, winsize: nat,
                      ghost g: int, ghost fit: bool, ghost e: nat, ghost w: nat)
    returns (t: Window, ghost e': nat, ghost w': nat)
    requires y <= 1 && res != n && n.Normal() && 2 <= winsize <= 8
    requires Open(s, winsize, e, w) && Machine(res, M, n.dp, mp, redmode, unset, winsize, g, fit, e)
    modifies res
    ensures Open(t, winsize, e', w') && Machine(res, M, n.dp, mp, redmode, unset, winsize, g, fit, e')
    ensures Consumed(t, e', w') == 2 * Consumed(s, e, w) + y
  {
    hide *;
    OpenFacts(s, winsize, e, w);
    if s.mode == 0 && y == 0 {
      return s, e, w;
    }
    if s.mode == 1 && y == 0 {
      SquareOnce(res, M, n, mp, redmode, unset, winsize, g, fit, e);
      Closed(winsize, 2 * e);
      StillClosed(s, winsize, e, w);
      return s, 2 * e, 0;
    }
    BitEnters(s, winsize, e, w, y);
    e', w' := e, 2 * w + y;
    t := Window(2, s.bitcpy + 1, s.bitbuf + y * Pow2(winsize - (s.bitcpy + 1)));
    if t.bitcpy == winsize {
      FullWindow(t, winsize, e, w');
      Flush(res, M, n, mp, redmode, unset, turn, winsize, t.bitbuf, g, fit, e);
      e', w' := e * Pow2(winsize) + t.bitbuf, 0;
      t := Window(1, 0, 0);
      Closed(winsize, e');
    } else {
      StillOpen(t, winsize, e, w');
    }
  }

  lemma StillClosed(s: Window, winsize: nat, e: nat, w: nat)
    requires Open(s, winsize, e, w) && s.mode == 1
    ensures s == Window(1, 0, 0)
  {
    hide Pow2;
    assert 0 * Pow2(winsize - 0) == 0;
  }

  lemma StillOpen(t: Window, winsize: nat, e: nat, w: nat)
    requires winsize >= 2 && t.mode == 2 && 0 < t.bitcpy < winsize && Pow2(t.bitcpy - 1) <= w < Pow2(t.bitcpy)
    requires t.bitbuf == w * Pow2(winsize - t.bitcpy)
    ensures Open(t, winsize, e, w)
  {
  }

  lemma FullWindow(t: Window, winsize: nat, e: nat, w: nat)
    requires t.bitcpy == winsize && winsize > 0 && t.bitbuf == w * Pow2(winsize - t.bitcpy)
    requires Pow2(winsize - 1) <= w < Pow2(winsize)
    ensures t.bitbuf == w && Consumed(t, e, w) == e * Pow2(winsize) + t.bitbuf
  {
    Pow2Zero();
    assert w * 1 == w;
  }

  // ---------------------------------------------------------- the exponent's bits

  /** d >> k, and the bits that go. */
  ghost function Upper(d: nat, k: nat): int {
    d / Pow2(k)
  }

  ghost function Lower(d: nat, k: nat): int {
    d % Pow2(k)
  }

  lemma SplitAt(d: nat, k: nat)
    ensures d == Upper(d, k) * Pow2(k) + Lower(d, k) && 0 <= Lower(d, k) < Pow2(k) && Upper(d, k) >= 0
  {
    QuotientOf(d, Pow2(k), 0);
  }

  /** The number the digits above cur and the top i bits of digit cur spell. */
  ghost function TopBits(x: seq<Digit>, cur: nat, i: nat): int
    requires cur < |x| && i <= 28
  {
    Eval(x[cur + 1..]) * Pow2(i) + Upper(x[cur], 28 - i)
  }

  /** buf >> 27 & 1, and buf << 1 on a 32-bit cell. */
  function TopBitOf(buf: Cell): nat {
    buf / 0x800_0000 % 2
  }

  function ShiftedBuf(buf: Cell): Cell {
    buf * 2 % 0x1_0000_0000
  }

  /** buf holds the bits of d that are left after i of them. */
  ghost predicate Buffered(buf: Cell, d: Digit, i: nat) {
    i <= 28 && buf % RADIX == Lower(d, 28 - i) * Pow2(i)
  }

  lemma BufferedStart(d: Digit)
    ensures Buffered(d, d, 0)
  {
    Pow2Digit();
    Pow2Zero();
    hide Pow2;
    DivModUnique(d, RADIX, 0, d);
  }

  /** The next bit of a digit. */
  lemma NextBit(buf: Cell, d: Digit, i: nat)
    requires Buffered(buf, d, i) && i < 28
    ensures TopBitOf(buf) <= 1 && Buffered(ShiftedBuf(buf), d, i + 1)
    ensures Upper(d, 27 - i) == 2 * Upper(d, 28 - i) + TopBitOf(buf)
  {
    hide Pow2;
    hide Upper;
    hide Lower;
    hide TopBitOf;
    hide ShiftedBuf;
    Pow2Doubles(27 - i);
    Pow2Doubles(i);
    Pow2Add(28 - i, i);
    Pow2Digit();
    SplitAt(d, 28 - i);
    SplitAt(d, 27 - i);
    var p, s := Pow2(27 - i), Pow2(i);
    var h, m, m' := Upper(d, 28 - i), Lower(d, 28 - i), Lower(d, 27 - i);
    var y := Upper(d, 27 - i) - 2 * h;
    BitLeft(d, h, Upper(d, 27 - i), p, m, m');
    BitIsSmall(y, p, m, m');
    assert 2 * p * s == 2 * (p * s);
    BufferBit(buf, buf / RADIX, buf % RADIX, y, m', p, s, m);
  }

  lemma BitLeft(d: int, h: int, h': int, p: nat, m: int, m': int)
    requires d == h * (2 * p) + m && d == h' * p + m'
    ensures m == (h' - 2 * h) * p + m'
  {
    assert (h' - 2 * h) * p == h' * p - h * (2 * p);
  }

  lemma BitIsSmall(y: int, p: nat, m: nat, m': nat)
    requires p > 0 && m == y * p + m' && m' < p && m < 2 * p
    ensures 0 <= y <= 1
  {
    if y >= 2 {
      MulMonotone(2, y, p);
    } else if y < 0 {
      MulMonotone(y, -1, p);
    }
  }

  lemma BufferBit(buf: Cell, q: nat, r: nat, y: nat, m': nat, p: nat, s: nat, m: nat)
    requires buf == q * RADIX + r && r == m * s && m == y * p + m' && m' < p && y <= 1 && p * s == 0x800_0000 && s > 0
    ensures TopBitOf(buf) == y && ShiftedBuf(buf) % RADIX == m' * (2 * s)
  {
    assert (y * p + m') * s == y * (p * s) + m' * s;
    MulStrict(m', p, s);
    var low := m' * s;
    DivModUnique(buf, 0x800_0000, 2 * q + y, low);
    ModAddMultiple(y, q, 2);
    DivModUnique(y, 2, 0, y);
    assert m' * (2 * s) == 2 * low;
    var v := buf * 2;
    assert v == (2 * q + y) * RADIX + 2 * low;
    var w := v / 0x1_0000_0000;
    assert v % 0x1_0000_0000 == v - w * 16 * RADIX;
    DivModUnique(v % 0x1_0000_0000, RADIX, 2 * q + y - w * 16, 2 * low);
  }

  /** Taking the bit moves on by one. */
  lemma TopBitsStep(x: seq<Digit>, cur: nat, i: nat, y: nat)
    requires cur < |x| && i < 28 && Upper(x[cur], 27 - i) == 2 * Upper(x[cur], 28 - i) + y
    ensures TopBits(x, cur, i + 1) == 2 * TopBits(x, cur, i) + y
  {
    hide Eval;
    Pow2Doubles(i);
    hide Pow2;
    TwiceIs(Eval(x[cur + 1..]), Pow2(i));
  }

  lemma TopBitsEnds(x: seq<Digit>, cur: nat)
    requires cur < |x|
    ensures TopBits(x, cur, 28) == Eval(x[cur..])
    ensures TopBits(x, cur, 0) == Eval(x[cur + 1..])
  {
    hide Eval;
    Pow2Digit();
    Pow2Zero();
    hide Pow2;
    EvalCons(x[cur], x[cur + 1..]);
    assert x[cur..] == [x[cur]] + x[cur + 1..];
    DivModUnique(x[cur], RADIX, 0, x[cur]);
    DivModUnique(x[cur], 1, x[cur], 0);
  }

  /** Where the loop stands: i bits of digit cur are taken (28 when cur is still above the top). */
  ghost predicate Scanned(x: seq<Digit>, cur: nat, i: nat, buf: Cell, v: nat) {
    if cur == |x| then i == 28 && v == 0
    else cur < |x| && i <= 28 && Buffered(buf, x[cur], i) && v == TopBits(x, cur, i)
  }

  lemma ScannedLoads(x: seq<Digit>, cur: nat, buf: Cell, v: nat)
    requires Scanned(x, cur, 28, buf, v) && cur > 0
    ensures cur - 1 < |x| && Scanned(x, cur - 1, 0, x[cur - 1], v)
  {
    hide Eval;
    BufferedStart(x[cur - 1]);
    TopBitsEnds(x, cur - 1);
    if cur < |x| {
      TopBitsEnds(x, cur);
    } else {
      EvalNone();
      assert x[cur..] == [];
    }
    hide TopBits;
    hide Buffered;
  }

  lemma ScannedBit(x: seq<Digit>, cur: nat, i: nat, buf: Cell, v: nat)
    requires Scanned(x, cur, i, buf, v) && i < 28
    ensures TopBitOf(buf) <= 1 && Scanned(x, cur, i + 1, ShiftedBuf(buf), 2 * v + TopBitOf(buf))
  {
    hide *;
    ScannedIs(x, cur, i, buf, v);
    NextBit(buf, x[cur], i);
    TopBitsStep(x, cur, i, TopBitOf(buf));
    ScannedIs(x, cur, i + 1, ShiftedBuf(buf), 2 * v + TopBitOf(buf));
  }

  lemma ScannedIs(x: seq<Digit>, cur: nat, i: nat, buf: Cell, v: nat)
    ensures Scanned(x, cur, i, buf, v) <==>
      if cur == |x| then i == 28 && v == 0
      else cur < |x| && i <= 28 && Buffered(buf, x[cur], i) && v == TopBits(x, cur, i)
  {
  }

  lemma ScannedAll(x: seq<Digit>, buf: Cell, v: nat)
    requires Scanned(x, 0, 28, buf, v)
    ensures v == Eval(x)
  {
    hide Eval;
    EvalNone();
    if |x| > 0 {
      TopBitsEnds(x, 0);
      assert x[0..] == x;
    }
  }

  /** The head of the loop: the next bit, or the end after the last digit. */
  method FetchBit(X: seq<Digit>, bitcnt: nat, digidx: int, buf: Cell, ghost v: nat)
    returns (more: bool, y: nat, bitcnt': nat, digidx': int, buf': Cell)
    requires 1 <= bitcnt <= 28 && -1 <= digidx < |X| && Scanned(X, digidx + 1, 29 - bitcnt, buf, v)
    ensures !more ==> v == Eval(X)
    ensures more ==> y <= 1 && 1 <= bitcnt' <= 28 && -1 <= digidx' < |X|
    ensures more ==> Scanned(X, digidx' + 1, 29 - bitcnt', buf', 2 * v + y)
    ensures more ==> digidx' < digidx || (digidx' == digidx && bitcnt' < bitcnt)
  {
    hide Scanned;
    hide TopBitOf;
    hide ShiftedBuf;
    hide Eval;
    bitcnt', digidx', buf', y := bitcnt - 1, digidx, buf, 0;
    more := true;
    if bitcnt' == 0 {
      if digidx == -1 {
        ScannedAll(X, buf, v);
        more := false;
        return;
      }
      ScannedLoads(X, digidx + 1, buf, v);
      buf', digidx', bitcnt' := X[digidx], digidx - 1, 28;
    }
    ScannedBit(X, digidx' + 1, 28 - bitcnt', buf', v);
    y := TopBitOf(buf');
    buf' := ShiftedBuf(buf');
  }

  /** The main loop: all bits of the exponent, from the top. */
  method ScanExponent(X: seq<Digit>, res: MpInt, M: seq<MpInt?>, n: MpInt, mp: Digit, redmode: nat, unset: nat -> Cell,
                      winsize: nat, ghost g: int, ghost fit: bool)
    returns (s: Window, turn: nat, ghost e: nat, ghost w: nat)
    requires res != n && n.Normal() && 2 <= winsize <= 8
    requires Machine(res, M, n.dp, mp, redmode, unset, winsize, g, fit, 0)
    modifies res
    ensures Open(s, winsize, e, w) && Machine(res, M, n.dp, mp, redmode, unset, winsize, g, fit, e)
    ensures Consumed(s, e, w) == Eval(X)
  {
    ScanStarts(X, winsize);
    hide *;
    s, e, w := Window(0, 0, 0), 0, 0;
    turn := 256;
    var bitcnt: nat, digidx: int := 1, |X| - 1;
    var buf: Cell := 0;
    var more := true;
    while more
      invariant more ==> 1 <= bitcnt <= 28 && -1 <= digidx < |X|
      invariant more ==> Scanned(X, digidx + 1, 29 - bitcnt, buf, Consumed(s, e, w))
      invariant !more ==> Consumed(s, e, w) == Eval(X)
      invariant Open(s, winsize, e, w) && Machine(res, M, n.dp, mp, redmode, unset, winsize, g, fit, e)
      decreases more, digidx + 1, bitcnt
    {
      var y;
      more, y, bitcnt, digidx, buf := FetchBit(X, bitcnt, digidx, buf, Consumed(s, e, w));
      if more {
        s, e, w := TakeBit(y, s, res, M, n, mp, redmode, unset, turn, winsize, g, fit, e, w);
        turn := turn + 1;
      }
    }
  }

  lemma ScanStarts(x: seq<Digit>, winsize: nat)
    requires winsize >= 2
    ensures Scanned(x, |x|, 28, 0, Consumed(Window(0, 0, 0), 0, 0)) && Open(Window(0, 0, 0), winsize, 0, 0)
  {
    Pow2Zero();
    hide Pow2;
    assert 0 * Pow2(winsize - 0) == 0;
  }

  // ------------------------------------------------------------------- the result

  /** One leftover bit: bitbuf <<= 1, and the test of bit winsize. */
  lemma LeftoverBit(bitbuf: nat, w: nat, winsize: nat, k: nat, x: nat)
    requires x < k <= winsize && bitbuf == w * Pow2(winsize - k + x)
    ensures 2 * bitbuf == w * Pow2(winsize - k + (x + 1))
    ensures 2 * bitbuf / Pow2(winsize) % 2 <= 1
    ensures Upper(w, k - (x + 1)) == 2 * Upper(w, k - x) + 2 * bitbuf / Pow2(winsize) % 2
  {
    var l := k - (x + 1);
    Pow2Doubles(l);
    Pow2Doubles(winsize - k + x);
    Pow2Add(l, winsize - k + (x + 1));
    SplitAt(w, l);
    SplitAt(w, l + 1);
    assert l + 1 == k - x;
    hide Pow2;
    hide Upper;
    hide Lower;
    TwiceIs(w, Pow2(winsize - k + x));
    LeftoverValue(2 * bitbuf, w, Upper(w, l), Lower(w, l), Upper(w, l + 1), Lower(w, l + 1), Pow2(l),
                  Pow2(winsize - k + (x + 1)), Pow2(winsize));
  }

  lemma LeftoverValue(b: nat, w: nat, h: nat, r: nat, h2: nat, r2: nat, p: nat, s: nat, q: nat)
    requires b == w * s && w == h * p + r && r < p && w == h2 * (2 * p) + r2 && r2 < 2 * p && p * s == q && s > 0
    ensures q > 0 && b / q % 2 <= 1 && h == 2 * h2 + b / q % 2
  {
    MulStrict(0, p, s);
    assert (h * p + r) * s == h * (p * s) + r * s;
    MulStrict(r, p, s);
    DivModUnique(b, q, h, r * s);
    BitLeft(w, h2, h, p, r2, r);
    BitIsSmall(h - 2 * h2, p, r2, r);
    DivModUnique(h, 2, h2, h - 2 * h2);
  }

  lemma LeftoverEnds(w: nat, k: nat)
    requires w < Pow2(k)
    ensures Upper(w, k) == 0 && Upper(w, 0) == w
  {
    Pow2Zero();
    DivModUnique(w, Pow2(k), 0, w);
    DivModUnique(w, 1, w, 0);
  }

  /** The bits of an unfinished window, one at a time. */
  method FinishWindow(s: Window, res: MpInt, M: seq<MpInt?>, n: MpInt, mp: Digit, redmode: nat,
                      unset: nat -> Cell, turn: nat, winsize: nat,
                      ghost g: int, ghost fit: bool, ghost e: nat, ghost w: nat)
    requires res != n && n.Normal() && 2 <= winsize <= 8
    requires Open(s, winsize, e, w) && Machine(res, M, n.dp, mp, redmode, unset, winsize, g, fit, e)
    modifies res
    ensures Machine(res, M, n.dp, mp, redmode, unset, winsize, g, fit, Consumed(s, e, w))
  {
    OpenFacts(s, winsize, e, w);
    ConsumedIs(s, e, w);
    if s.mode == 2 && s.bitcpy > 0 {
      var k, bitbuf := s.bitcpy, s.bitbuf;
      LeftoverEnds(w, k);
      assert bitbuf == w * Pow2(winsize - k + 0);
      LeftoverBits(k, bitbuf, res, M, n, mp, redmode, unset, turn, winsize, g, fit, e, w);
    }
  }

  method LeftoverBits(k: nat, buf: nat, res: MpInt, M: seq<MpInt?>, n: MpInt, mp: Digit, redmode: nat,
                      unset: nat -> Cell, turn: nat, winsize: nat,
                      ghost g: int, ghost fit: bool, ghost e: nat, ghost w: nat)
    requires res != n && n.Normal() && 2 <= winsize <= 8 && k <= winsize && buf == w * Pow2(winsize - k + 0)
    requires w < Pow2(k) && Machine(res, M, n.dp, mp, redmode, unset, winsize, g, fit, e)
    modifies res
    ensures Machine(res, M, n.dp, mp, redmode, unset, winsize, g, fit, e * Pow2(k) + w)
  {
    hide *;
    var bitbuf := buf;
    LeftoverEnds(w, k);
    Pow2Zero();
    assert e * 1 == e;
    ghost var d := e;
    var x := 0;
    while x < k
      invariant x <= k && bitbuf == w * Pow2(winsize - k + x)
      invariant Upper(w, k - x) >= 0 && d == e * Pow2(x) + Upper(w, k - x)
      invariant Machine(res, M, n.dp, mp, redmode, unset, winsize, g, fit, d)
    {
      LeftoverBit(bitbuf, w, winsize, k, x);
      Pow2Doubles(x);
      TwiceIs(e, Pow2(x));
      SquareOnce(res, M, n, mp, redmode, unset, winsize, g, fit, d);
      d := 2 * d;
      bitbuf := 2 * bitbuf;
      if bitbuf / Pow2(winsize) % 2 != 0 {
        TimesBase(res, M, n, mp, redmode, unset, turn + x, winsize, g, fit, d);
        d := d + 1;
      }
      x := x + 1;
    }
  }

  /** res := res * M[1]. */
  method TimesBase(res: MpInt, M: seq<MpInt?>, n: MpInt, mp: Digit, redmode: nat, unset: nat -> Cell, turn: nat,
                   winsize: nat, ghost g: int, ghost fit: bool, ghost e: nat)
    requires res != n && n.Normal() && 2 <= winsize <= 8
    requires Machine(res, M, n.dp, mp, redmode, unset, winsize, g, fit, e)
    modifies res
    ensures Machine(res, M, n.dp, mp, redmode, unset, winsize, g, fit, e + 1)
  {
    hide *;
    MachineFacts(res, M, n.dp, mp, redmode, unset, winsize, g, fit, e);
    TableEntry(M, 1, winsize, g, fit, redmode, n.dp);
    TimesPower(res, M[1], res, n, mp, redmode, unset, turn, g, fit, e, 1);
    MachineFacts(res, M, n.dp, mp, redmode, unset, winsize, g, fit, e + 1);
  }

  /** The window size for an exponent of so many bits. */
  function WindowSize(bits: nat): (r: nat)
    ensures 2 <= r <= 8
  {
    if bits <= 7 then 2
    else if bits <= 36 then 3
    else if bits <= 140 then 4
    else if bits <= 450 then 5
    else if bits <= 1303 then 6
    else if bits <= 3529 then 7
    else 8
  }

  /** The constant for the chosen reduction; only an even modulus has none. */
  method PrepareReduction(n: MpInt, redmode: nat) returns (ok: bool, mp: Digit)
    requires n.Normal() && !n.neg && n.Mag() > 1 && (redmode != 0 ==> exists p: nat :: Accepted(n.Mag(), p))
    ensures ok <==> redmode != 0 || n.Mag() % 2 == 1
    ensures ok ==> Ready(redmode, n.dp, mp)
  {
    ParityIsLow(n.dp);
    hide Eval;
    hide HasBits;
    if redmode == 0 {
      ok, mp := Setup(n);
    } else {
      ghost var p: nat :| Accepted(n.Mag(), p);
      mp := Reduce2kSetup(n, p);
      ok := true;
    }
  }

  lemma ParityIsLow(n: seq<Digit>)
    ensures Eval(n) % 2 == 1 <==> n != [] && n[0] % 2 == 1
  {
    if n != [] {
      assert Eval(n) == n[0] + RADIX * Eval(n[1..]);
    }
  }

  /** The power, still scaled. */
  method ScaledPower(G: MpInt, X: MpInt, P: MpInt, mp: Digit, redmode: nat, unset: nat -> Cell, ghost fit: bool)
    returns (res: MpInt)
    requires G.Normal() && X.Normal() && P.Normal() && !P.neg && P.Mag() > 0
    requires Prepared(unset, G.Value(), fit, redmode, P.dp, mp)
    requires fit ==> BaseFits(redmode, G.neg, G.Mag(), Power(|P.dp|) % P.Mag())
    ensures fresh(res) && Holds(res, Pow(G.Value(), X.Mag()), redmode, P.dp, fit)
  {
    hide *;
    ghost var g, x := G.Value(), X.Mag();
    MagIs(X);
    MagIs(P);
    PreparedIs(unset, g, fit, redmode, P.dp, mp);
    var bits := CountBits(X.dp);
    var winsize := WindowSize(bits);
    res := new MpInt();
    StartValue(res, P, mp, redmode);
    BaseFitsIs(redmode, G.neg, G.Mag(), res.Mag());
    BaseFitsIs(redmode, G.neg, G.Mag(), Power(|P.dp|) % P.Mag());
    var M := BuildTable(G, res, P, mp, redmode, unset, winsize, fit);
    PowOne(g);
    HoldsIs(res, 1, redmode, P.dp, true);
    HoldsIs(res, 1, redmode, P.dp, fit);
    MachineFacts(res, M, P.dp, mp, redmode, unset, winsize, g, fit, 0);
    var s, turn, e, w := ScanExponent(X.dp, res, M, P, mp, redmode, unset, winsize, g, fit);
    FinishWindow(s, res, M, P, mp, redmode, unset, turn, winsize, g, fit, e, w);
    MachineFacts(res, M, P.dp, mp, redmode, unset, winsize, g, fit, x);
  }

  lemma BaseFitsIs(redmode: nat, neg: bool, g: nat, r: nat)
    ensures BaseFits(redmode, neg, g, r) <==> (redmode == 0 && neg ==> Exact(g, r))
  {
  }

  lemma MagIs(x: MpInt)
    ensures x.Mag() == Eval(x.dp) && (x.Normal() ==> Clamped(x.dp))
  {
  }

  /** The base fits unless it is negative and both it and the modulus have 350 digits or more. */
  lemma SmallBaseFits(redmode: nat, neg: bool, g: seq<Digit>, p: seq<Digit>)
    requires Clamped(g) && Clamped(p) && p != [] && (neg ==> Least(|g|, |p|) < TOOM_MUL_CUTOFF)
    ensures Eval(p) > 0 && BaseFits(redmode, neg, Eval(g), Power(|p|) % Eval(p))
  {
    ClampedZero(p);
    EvalBound(p);
    hide Eval;
    hide Power;
    hide Length;
    DigitsLength(g);
    LengthIs(Power(|p|) % Eval(p), |p|);
  }

  /** When the power comes out right: the base fits, and every step does. */
  ghost predicate PowerFits(redmode: nat, unset: nat -> Cell, neg: bool, g: seq<Digit>, p: seq<Digit>)
    requires Eval(p) > 0
  {
    var v: int := Eval(g);
    BaseFits(redmode, neg, Eval(g), Power(|p|) % Eval(p)) && StepsFit(unset, if neg then -v else v, redmode, p)
  }

  /** Montgomery reduction by columns: nothing else is needed below 256 digits, whatever the words. */
  lemma ShortModulusFits(unset: nat -> Cell, neg: bool, g: seq<Digit>, p: seq<Digit>)
    requires Clamped(g) && Clamped(p) && 0 < |p| < 256
    ensures Eval(p) > 0 && PowerFits(0, unset, neg, g, p)
  {
    SmallBaseFits(0, neg, g, p);
  }

  /** mp_exptmod_fast: Y becomes G^X mod P when all fits, and some residue otherwise. It fails only
      for Montgomery reduction with an even modulus. unset are the words of unset memory that its
      multiplications come upon. */
  method ExptmodFast(G: MpInt, X: MpInt, P: MpInt, Y: MpInt, redmode: nat, unset: nat -> Cell) returns (ok: bool)
    requires G.Normal() && X.Normal() && P.Normal() && !P.neg && !X.neg && P.Mag() > 1
    requires redmode == 0 || (redmode == 2 && exists p: nat :: Accepted(P.Mag(), p))
    modifies Y
    ensures ok <==> redmode == 2 || old(P.Mag()) % 2 == 1
    ensures ok ==> Y.Normal() && !Y.neg && Y.Mag() < old(P.Mag())
    ensures ok && old(PowerFits(redmode, unset, G.neg, G.dp, P.dp)) ==>
            Y.Mag() == Pow(old(G.Value()), old(X.Mag())) % old(P.Mag())
    ensures !ok ==> Y.dp == old(Y.dp) && Y.neg == old(Y.neg)
  {
    hide Eval;
    hide Power;
    hide Congruent;
    hide Pow;
    hide Ready;
    hide BaseFits;
    hide StepsFit;
    hide Accepted;
    ghost var p, v, pd := P.Mag(), Pow(G.Value(), X.Mag()), P.dp;
    ghost var fit := PowerFits(redmode, unset, G.neg, G.dp, P.dp);
    var mp;
    ok, mp := PrepareReduction(P, redmode);
    if !ok {
      return;
    }
    var res := ScaledPower(G, X, P, mp, redmode, unset, fit);
    ghost var r := res.Mag();
    if redmode == 0 {
      BelowOwnSquare(r, p);
      Redux(res, P, mp, redmode, 0, 0);
      if fit {
        Transitive(res.Mag() * Scale(redmode, pd), r, v * Scale(redmode, pd), p);
        CancelScale(res.Mag(), v, redmode, pd, mp);
      }
    }
    assert v * 1 == v;
    if fit {
      Symmetric(res.Mag(), v, p);
      IsRemainder(v, res.Mag(), p);
    }
    res.Exchange(Y);
  }

  lemma BelowOwnSquare(r: nat, p: nat)
    requires r < p
    ensures r < p * p
  {
    MulMonotone(1, p, p);
  }
}
