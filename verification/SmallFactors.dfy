/** Doubling, halving and division by three. */
module SmallFactors {
  import opened Arith
  import opened Digits
  import opened DigitLoops
  import opened BitShifts
  import opened Bits
  import opened BigInt

  lemma StillClamped(c: seq<Digit>)
    requires c != [] && Eval(c) >= Power(|c| - 1)
    ensures Clamped(c)
  {
    hide Eval;
    hide Power;
    if c[|c| - 1] == 0 {
      EvalPrefix(c, |c| - 1);
      assert c[..|c|] == c;
      EvalBound(c[..|c| - 1]);
    }
  }

  lemma PowerOfTwo()
    ensures Pow2(1) == 2
  {
  }

  /** mp_mul_2. */
  method Mul2(a: MpInt, b: MpInt)
    requires a.Normal()
    modifies b
    ensures b.Normal() && b.Value() == 2 * old(a.Value()) && |b.dp| <= old(|a.dp|) + 1
    ensures b.neg == old(a.neg)
  {
    PowerOfTwo();
    hide Eval;
    hide Power;
    hide Pow2;
    var neg := a.neg;
    ClampedZero(a.dp);
    ghost var was := a.dp;
    b.dp := ShiftUpDigits(a.dp, 1);
    b.neg := neg;
    if was != [] {
      ClampedBounds(was);
      if |b.dp| == |was| {
        StillClamped(b.dp);
      }
    } else {
      ClampedZero(b.dp);
    }
  }

  /** mp_div_2: half of an even number. */
  method Div2(a: MpInt, b: MpInt)
    requires a.Normal()
    modifies b
    ensures b.Normal() && b.Mag() == old(a.Mag()) / 2 && |b.dp| <= old(|a.dp|)
    ensures b.neg == (old(a.neg) && b.dp != [])
  {
    PowerOfTwo();
    hide Eval;
    hide Pow2;
    var neg := a.neg;
    b.dp := ShiftDownDigits(a.dp, 1);
    b.neg := neg;
    b.Clamp();
  }

  /** One digit of a division by three: multiply by a third of b, then correct. */
  method ThirdOf(v: Word) returns (t: Digit, w: Word)
    requires v < 3 * RADIX
    ensures v == 3 * t + w && w < 3
  {
    var b: Word := RADIX / 3;
    w, t := v, 0;
    if w >= 3 {
      t := w * b / RADIX;
      w := w - 3 * t;
      while w >= 3
        invariant v == 3 * t + w
      {
        t, w := t + 1, w - 3;
      }
    }
  }

  /** The digit loop of mp_div_3. */
  method Third(a: seq<Digit>) returns (q: seq<Digit>, w: Word)
    ensures |q| == |a| && Eval(a) == 3 * Eval(q) + w && w < 3
  {
    hide Eval;
    q, w := [], 0;
    var ix: nat := |a|;
    EvalNone();
    assert a[|a|..] == [];
    while ix > 0
      invariant ix <= |a| && |q| == |a| - ix && w < 3
      invariant Eval(a[ix..]) == 3 * Eval(q) + w
    {
      ix := ix - 1;
      EvalCons(a[ix], a[ix + 1..]);
      assert a[ix..] == [a[ix]] + a[ix + 1..];
      var t;
      t, w := ThirdOf(w * RADIX + a[ix]);
      EvalCons(t, q);
      q := [t] + q;
    }
    assert a[0..] == a;
  }

  /** mp_div_3. */
  method Div3(a: MpInt, c: MpInt)
    requires a.Normal()
    modifies c
    ensures c.Normal() && c.Mag() == old(a.Mag()) / 3 && |c.dp| <= old(|a.dp|)
    ensures c.neg == (old(a.neg) && c.dp != [])
  {
    hide Eval;
    var neg := a.neg;
    var q, w := Third(a.dp);
    DivModUnique(a.Mag(), 3, Eval(q), w);
    c.dp, c.neg := q, neg;
    c.Clamp();
  }
}
