/** One multiplication or squaring followed by the chosen reduction, and the word of unset
    memory that a multiplication by columns leaves for the reduction to read. */
module Reductions {
  import opened Arith
  import opened Digits
  import opened DigitLoops
  import opened BitShifts
  import opened Bits
  import opened BigInt
  import opened Columns
  import opened Products
  import opened Multiply
  import opened Squaring
  import opened Congruence
  import opened FoldingReduction
  import opened Montgomery

  /** What the chosen reduction divides by: R, or nothing. */
  ghost function Scale(redmode: nat, n: seq<Digit>): nat {
    if redmode == 0 then Power(|n|) else 1
  }

  /** mp is the constant of the chosen reduction's set-up. */
  ghost predicate Ready(redmode: nat, n: seq<Digit>, mp: Digit) {
    && Eval(n) > 1 && Clamped(n)
    && (redmode == 0 ==> IsRho(mp, n) && n[0] % 2 == 1)
    && (redmode != 0 ==> exists p: nat :: Accepted(Eval(n), p) && mp == (Pow2(p) - Eval(n)) % RADIX)
  }

  /** The moduli that folding reduces by rightly. */
  ghost predicate FoldsModulus(n: nat) {
    exists p: nat :: Accepted(n, p) && FoldsRight(n, p)
  }

  /** The reduction comes out right with this word above the number. */
  ghost predicate StepFits(redmode: nat, n: seq<Digit>, word: Cell) {
    if redmode == 0 then |n| < 256 || word == 0 else FoldsModulus(Eval(n))
  }

  /** The cells above a number of so many digits: zeros, and the word at place at. */
  function CellsAbove(used: nat, top: nat, at: nat, word: Cell): seq<Cell>
    requires used <= top
  {
    seq(top - used, i => if used + i == at then word else 0)
  }

  /** Where a product leaves a word, there is room for it below place 2|n| - 1 and below n * R. */
  ghost predicate WordInPlace(x: seq<Digit>, n: seq<Digit>, at: nat, word: nat) {
    |x| <= at <= 2 * |n| - 2 && Eval(x) + word * Power(at) < Eval(n) * Power(|n|)
  }

  lemma AboveInPlace(x: seq<Digit>, n: seq<Digit>, at: nat, word: Cell)
    requires n != [] && |x| <= 2 * |n| && Eval(x) < Eval(n) * Power(|n|)
    requires word != 0 ==> WordInPlace(x, n, at, word)
    ensures Above(x, CellsAbove(|x|, 2 * |n| + 1, at, word), n)
    ensures word != 0 ==> OneWord(x, CellsAbove(|x|, 2 * |n| + 1, at, word), at, word)
  {
    hide Eval;
    hide Power;
    CellsValue(x, 2 * |n| + 1, at, word);
    var above := CellsAbove(|x|, 2 * |n| + 1, at, word);
    forall j | 0 <= j < |Cells(x, above)| && 2 * |n| - 1 <= j
      ensures Cells(x, above)[j] < RADIX
    {
      assert j >= |x| ==> Cells(x, above)[j] == above[j - |x|];
    }
  }

  lemma CellsValue(x: seq<Digit>, top: nat, at: nat, word: Cell)
    requires |x| <= top && (word != 0 ==> |x| <= at < top)
    ensures Eval(Cells(x, CellsAbove(|x|, top, at, word))) == Eval(x) + word * Power(at)
  {
    hide Eval;
    hide Power;
    var above := CellsAbove(|x|, top, at, word);
    EvalConcat(x, above);
    if word != 0 {
      OneEntry(above, at - |x|);
      PowerAdd(|x|, at - |x|);
      WordMoves(Power(|x|), Power(at - |x|), word, Power(at), Eval(above));
    } else {
      EvalZeros(above);
    }
  }

  lemma WordMoves(q: nat, s: nat, word: nat, p: nat, v: nat)
    requires p == q * s && v == s * word
    ensures q * v == word * p
  {
  }

  /** The word decides whether the baseline reduction is right. */
  lemma WordDecides(r: int, x: seq<Digit>, lost: seq<nat>, n: seq<Digit>, at: nat, word: Cell)
    requires |n| >= 256 && Clamped(n) && n[0] % 2 == 1 && |x| <= 2 * |n| && Eval(x) < Eval(n) * Power(|n|)
    requires word != 0 ==> WordInPlace(x, n, at, word)
    requires var t := Cells(x, CellsAbove(|x|, 2 * |n| + 1, at, word));
             Wrapped(lost, t) && Reduced(r, Eval(t) - CELLS * Eval(lost), n)
    ensures Reduced(r, Eval(x), n) <==> word == 0
  {
    hide Eval;
    hide Power;
    hide Reduced;
    var above := CellsAbove(|x|, 2 * |n| + 1, at, word);
    AboveInPlace(x, n, at, word);
    if word != 0 {
      OneWordAbove(r, x, above, lost, n, at, word);
    } else {
      EvalZeros(above);
      OddEval(n);
      hide *;
      ZeroIsMultiple(Eval(n));
      DigitsAbove(r, x, above, lost, n);
    }
  }

  lemma ZeroIsMultiple(n: nat)
    requires n > 0
    ensures 0 % n == 0
  {
  }

  /** (*redux)(x, P, mp), with a word of memory at place at above x. */
  method Redux(x: MpInt, n: MpInt, mp: Digit, redmode: nat, at: nat, word: Cell)
    requires x != n && x.Normal() && n.Normal() && !x.neg && Ready(redmode, n.dp, mp)
    requires x.Mag() < n.Mag() * n.Mag()
    requires redmode == 0 && |n.dp| >= 256 && word != 0 ==> WordInPlace(x.dp, n.dp, at, word)
    modifies x
    ensures x.Normal() && !x.neg && x.Mag() < n.Mag()
    ensures StepFits(redmode, n.dp, word) ==> Congruent(x.Mag() * Scale(redmode, n.dp), old(x.Mag()), n.Mag())
    ensures redmode == 0 && !StepFits(redmode, n.dp, word) ==>
            !Congruent(x.Mag() * Scale(redmode, n.dp), old(x.Mag()), n.Mag())
  {
    hide Eval;
    hide Power;
    hide Congruent;
    hide Folded;
    hide Accepted;
    ghost var v, d := x.Mag(), x.dp;
    if redmode == 0 {
      EvalBound(n.dp);
      MulMonotone(n.Mag(), Power(|n.dp|), n.Mag());
      InputLength(x.dp, n.dp);
      if |n.dp| >= 256 {
        AboveInPlace(x.dp, n.dp, at, word);
      }
      var above := CellsAbove(|x.dp|, 2 * |n.dp| + 1, at, word);
      ghost var lost := Montgomery.Reduce(x, n, mp, above);
      if |n.dp| >= 256 {
        WordDecides(x.Mag(), d, lost, n.dp, at, word);
      }
    } else {
      ghost var p: nat :| Accepted(n.Mag(), p) && mp == (Pow2(p) - n.Mag()) % RADIX;
      ReduceFolded(x, n, mp, p);
      if FoldsModulus(n.Mag()) {
        FoldedIsRight(v, n.Mag(), p);
        RemainderIs(v, n.Mag());
      }
    }
  }

  lemma FoldedIsRight(v: nat, n: nat, p: nat)
    requires Accepted(n, p) && FoldsModulus(n)
    ensures Folded(v, n, p) == v % n
  {
    var q: nat :| Accepted(n, q) && FoldsRight(n, q);
    BitsAreUnique(n, p, q);
    FoldsRightIsExact(n, p);
  }

  // ---------------------------------------------------------------- one product

  /** Whether mp_mul multiplies numbers of so many digits by columns. */
  predicate ByColumns(x: nat, y: nat) {
    Least(x, y) < KARATSUBA_MUL_CUTOFF && FitsColumns(x, y)
  }

  /** The word that is left above the product: by columns an unset word of the stack is copied to
      the place above the highest column; the other ways of multiplying leave zeros. */
  function Left(x: nat, y: nat, unset: Cell): Cell {
    if ByColumns(x, y) then unset else 0
  }

  /** There is room for the word. */
  lemma ProductLeavesRoom(x: seq<Digit>, y: seq<Digit>, z: seq<Digit>, n: seq<Digit>, word: Cell)
    requires |n| >= 256 && Clamped(n) && ByColumns(|x|, |y|) && Clamped(x) && Clamped(y) && Clamped(z)
    requires Eval(x) < Eval(n) && Eval(y) < Eval(n) && Eval(z) == Eval(x) * Eval(y)
    ensures WordInPlace(z, n, |x| + |y|, word)
  {
    hide *;
    OrderedLengths(n, x);
    OrderedLengths(n, y);
    ProductBelow(x, y);
    var at := |x| + |y|;
    NoLonger(z, at);
    WordInPlaceIs(z, n, at, word);
    ColumnLengths(|x|, |y|, |n|);
    PowersAround(at, |n|);
    ClampedBounds(n);
    WordBelow(Eval(z), word, Power(at), Power(at + 2), Eval(n), Power(|n| - 1), Power(|n|));
  }

  lemma ColumnLengths(x: nat, y: nat, k: nat)
    requires ByColumns(x, y) && x <= k && y <= k && k >= 256
    ensures x + y + 2 <= 2 * k - 1
  {
  }

  lemma WordInPlaceIs(x: seq<Digit>, n: seq<Digit>, at: nat, word: nat)
    ensures WordInPlace(x, n, at, word)
            <==> |x| <= at <= 2 * |n| - 2 && Eval(x) + word * Power(at) < Eval(n) * Power(|n|)
  {
  }

  lemma NoLonger(z: seq<Digit>, at: nat)
    requires Clamped(z) && Eval(z) < Power(at)
    ensures |z| <= at
  {
    hide Eval;
    hide Power;
    if |z| > at {
      ClampedBounds(z);
      PowerGrows(at, |z| - 1);
    }
  }

  lemma PowersAround(at: nat, k: nat)
    requires k >= 256 && at + 2 <= 2 * k - 1
    ensures Power(at + 2) == 0x100_0000_0000_0000 * Power(at) && Power(at + 2) <= Power(k - 1) * Power(k)
  {
    PowerAdd(2, at);
    PowerAdd(k - 1, k);
    PowerGrows(at + 2, 2 * k - 1);
    SmallPowers();
  }

  lemma WordBelow(z: nat, word: nat, p: nat, q: nat, n: nat, l: nat, r: nat)
    requires z < p && word < 0x1_0000_0000 && q == 0x100_0000_0000_0000 * p && q <= l * r && l <= n
    ensures z + word * p < n * r
  {
    MulMonotone(word, 0xffff_ffff, p);
    MulMonotone(l, n, r);
  }

  /** A number below n, in normal form. */
  ghost predicate Residue(x: MpInt, n: seq<Digit>)
    reads x
  {
    x.Normal() && !x.neg && x.Mag() < Eval(n)
  }

  lemma BelowSquare(x: nat, y: nat, n: nat)
    requires x < n && y < n
    ensures 0 <= x * y < n * n
  {
    MulMonotone(x, n, y);
    MulStrict(y, n, n);
    MulMonotone(0, x, y);
  }

  /** A multiplication and a reduction, with the unset word the multiplication may come upon: the
      result stands for the product exactly when no such word is left, or it is 0, or the modulus
      is short enough for the reduction by columns. */
  method MulReduce(x: MpInt, y: MpInt, z: MpInt, n: MpInt, mp: Digit, redmode: nat, unset: Cell)
    requires z != n && n.Normal() && Ready(redmode, n.dp, mp) && Residue(x, n.dp) && Residue(y, n.dp)
    modifies z
    ensures Residue(z, n.dp)
    ensures old(StepFits(redmode, n.dp, Left(|x.dp|, |y.dp|, unset))) ==>
            Congruent(z.Mag() * Scale(redmode, n.dp), old(x.Mag()) * old(y.Mag()), n.Mag())
    ensures redmode == 0 && !old(StepFits(redmode, n.dp, Left(|x.dp|, |y.dp|, unset))) ==>
            !Congruent(z.Mag() * Scale(redmode, n.dp), old(x.Mag()) * old(y.Mag()), n.Mag())
  {
    hide Eval;
    hide Power;
    hide Congruent;
    hide Ready;
    hide Scale;
    hide Times;
    hide WordInPlace;
    hide FoldsModulus;
    ReadyIs(redmode, n.dp, mp);
    var at, word := |x.dp| + |y.dp|, Left(|x.dp|, |y.dp|, unset);
    ghost var xd, yd := x.dp, y.dp;
    BelowSquare(x.Mag(), y.Mag(), n.Mag());
    Mul(x, y, z);
    ProductsAreMagnitudes(z);
    if redmode == 0 && |n.dp| >= 256 && word != 0 {
      ProductLeavesRoom(xd, yd, z.dp, n.dp, word);
    }
    Redux(z, n, mp, redmode, at, word);
  }

  lemma ReadyIs(redmode: nat, n: seq<Digit>, mp: Digit)
    requires Ready(redmode, n, mp)
    ensures Clamped(n) && Eval(n) > 1 && (redmode == 0 ==> n != [] && n[0] % 2 == 1)
  {
  }

  /** A squaring and a reduction; squaring leaves no unset word. */
  method SqrReduce(x: MpInt, n: MpInt, mp: Digit, redmode: nat)
    requires x != n && n.Normal() && Ready(redmode, n.dp, mp) && Residue(x, n.dp)
    modifies x
    ensures Residue(x, n.dp)
    ensures StepFits(redmode, n.dp, 0) ==>
            Congruent(x.Mag() * Scale(redmode, n.dp), old(x.Mag()) * old(x.Mag()), n.Mag())
  {
    hide Eval;
    hide Congruent;
    hide Ready;
    hide Scale;
    ghost var a := x.Mag();
    BelowSquare(a, a, n.Mag());
    TimesIs(a, a);
    hide Times;
    Sqr(x, x);
    Redux(x, n, mp, redmode, 0, 0);
  }

  // ------------------------------------------------------------------ an example

  /** b^255 + 1 */
  function LongModulus(): (n: seq<Digit>)
    ensures |n| == 256 && Clamped(n) && n[0] == 1
  {
    [1] + Zeros(254) + [1]
  }

  /** Some base has the Montgomery form 2, whatever the odd modulus. */
  lemma BaseOfTwo(n: seq<Digit>) returns (g: int)
    requires n != [] && n[0] % 2 == 1
    ensures Congruent(2, g * Power(|n|), Eval(n))
  {
    hide Eval;
    hide Power;
    hide Congruent;
    OddEval(n);
    PowerIsPow2(|n|);
    g := DividePow2(2, 28 * |n|, Eval(n));
  }

  lemma LongModulusReady()
    ensures Ready(0, LongModulus(), 0xfff_ffff) && Eval([2]) == 2 && Clamped([2])
    ensures Scale(0, LongModulus()) == Power(256) && Eval(LongModulus()) > 2
  {
    hide LongModulus;
    var n := LongModulus();
    assert IsRho(0xfff_ffff, n);
    ManyDigits(n);
    EvalOne(2);
  }

  lemma WordLeft(unset: Cell)
    ensures StepFits(0, LongModulus(), Left(1, 1, unset)) <==> unset == 0
  {
  }

  /** 2 * 2 modulo b^255 + 1: the result stands for 4 exactly when the unset word is 0. */
  method UnsetWordDecides(unset: Cell) returns (n: MpInt, z: MpInt)
    ensures n.Normal() && n.dp == LongModulus() && Residue(z, n.dp)
    ensures Congruent(z.Mag() * Power(256), 4, n.Mag()) <==> unset == 0
  {
    hide LongModulus;
    hide Congruent;
    hide Eval;
    hide Power;
    hide Scale;
    hide StepFits;
    hide Ready;
    hide Left;
    LongModulusReady();
    ReadyIs(0, LongModulus(), 0xfff_ffff);
    WordLeft(unset);
    n := new MpInt();
    z := new MpInt();
    n.dp := LongModulus();
    var x := new MpInt();
    x.dp := [2];
    MulReduce(x, x, z, n, 0xfff_ffff, 0, unset);
  }
}
