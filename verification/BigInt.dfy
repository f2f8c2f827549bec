/** mp_int: signed numbers of arbitrary size, changed in place by their operations.
    The operands of a method may be the object it changes. */
module BigInt {
  import opened Arith
  import opened Digits
  import opened DigitLoops
  import opened BitShifts
  import opened Bits

  /** s passes for the larger of the two by its length, but is the smaller. */
  ghost predicate Misleads(s: seq<Digit>, t: seq<Digit>) {
    |s| > |t| && Eval(s) < Eval(t)
  }

  function WithSign(neg: bool, m: int): int {
    if neg then -m else m
  }

  class MpInt {
    var dp: seq<Digit>     // the used digits
    var neg: bool

    ghost function Mag(): nat
      reads this
    {
      Eval(dp)
    }

    ghost function Value(): int
      reads this
    {
      if neg then -(Mag() as int) else Mag()
    }

    /** What mp_clamp establishes: no leading zero, and no negative zero. */
    ghost predicate Normal()
      reads this
    {
      Clamped(dp) && (dp == [] ==> !neg)
    }

    constructor ()
      ensures dp == [] && !neg && Normal() && Mag() == 0
    {
      dp, neg := [], false;
      new;
      EvalNone();
    }

    /** mp_init_copy. */
    constructor CopyOf(a: MpInt)
      ensures dp == a.dp && neg == a.neg
    {
      dp, neg := a.dp, a.neg;
    }

    method Copy(a: MpInt)
      modifies this
      ensures dp == old(a.dp) && neg == old(a.neg)
    {
      dp, neg := a.dp, a.neg;
    }

    method Exchange(a: MpInt)
      modifies this, a
      ensures dp == old(a.dp) && neg == old(a.neg) && a.dp == old(dp) && a.neg == old(neg)
    {
      dp, neg, a.dp, a.neg := a.dp, a.neg, dp, neg;
    }

    method Zero()
      modifies this
      ensures dp == [] && !neg && Normal() && Mag() == 0
    {
      EvalNone();
      dp, neg := [], false;
    }

    method Set(d: Digit)
      modifies this
      ensures Normal() && !neg && Mag() == d
    {
      EvalNone();
      EvalOne(d);
      dp, neg := if d != 0 then [d] else [], false;
    }

    method Clamp()
      modifies this
      ensures Normal() && Mag() == old(Mag()) && neg == (old(neg) && dp != []) && |dp| <= old(|dp|)
    {
      hide Eval;
      dp := Trim(dp);
      if |dp| == 0 {
        neg := false;
      }
    }

    method SAdd(a: MpInt, b: MpInt)
      modifies this
      ensures Normal() && Mag() == old(a.Mag() + b.Mag()) && neg == (old(neg) && dp != [])
      ensures |dp| <= (if old(|a.dp|) > old(|b.dp|) then old(|a.dp|) else old(|b.dp|)) + 1
    {
      hide Eval;
      dp := AddDigits(a.dp, b.dp);
      Clamp();
    }

    method SSub(a: MpInt, b: MpInt)
      requires |a.dp| >= |b.dp|
      modifies this
      ensures Normal() && neg == (old(neg) && dp != [])
      ensures Mag() == old(a.Mag() - b.Mag() + if a.Mag() >= b.Mag() then 0 else Power(|a.dp|))
      ensures |dp| <= old(|a.dp|)
    {
      hide Eval;
      dp := SubDigits(a.dp, b.dp);
      Clamp();
    }

    static method CmpMag(a: MpInt, b: MpInt) returns (r: Order)
      ensures |a.dp| > |b.dp| ==> r == Greater
      ensures |a.dp| < |b.dp| ==> r == Less
      ensures |a.dp| == |b.dp| ==> r == OrderOf(a.Mag(), b.Mag())
      ensures Comparable(a.dp, b.dp) ==> r == OrderOf(a.Mag(), b.Mag())
    {
      hide Eval;
      r := CmpDigits(a.dp, b.dp);
      if Comparable(a.dp, b.dp) {
        ComparedByLength(a.dp, b.dp);
      }
    }

    static method Cmp(a: MpInt, b: MpInt) returns (r: Order)
      requires a.Normal() && b.Normal()
      ensures r == OrderOf(a.Value(), b.Value())
    {
      hide Eval;
      ClampedZero(a.dp);
      ClampedZero(b.dp);
      if a.neg != b.neg {
        return if a.neg then Less else Greater;
      }
      if a.neg {
        r := CmpMag(b, a);
      } else {
        r := CmpMag(a, b);
      }
    }

    /** mp_add. Operands of opposite sign are compared by length first, so a longer one that is not
        clamped may pass for the larger one; the sum is then too far to its side by b^length. */
    method Add(a: MpInt, b: MpInt)
      modifies this
      ensures Normal()
      ensures old(a.neg == b.neg || Comparable(a.dp, b.dp)) ==> Value() == old(a.Value() + b.Value())
      ensures old(a.neg == b.neg || (!Misleads(b.dp, a.dp) && !Misleads(a.dp, b.dp)))
              ==> Value() == old(a.Value() + b.Value())
      ensures old(a.neg != b.neg && Misleads(b.dp, a.dp))
              ==> Value() == old(a.Value() + b.Value()) + WithSign(old(b.neg), Power(|old(b.dp)|))
      ensures old(a.neg != b.neg && Misleads(a.dp, b.dp))
              ==> Value() == old(a.Value() + b.Value()) + WithSign(old(a.neg), Power(|old(a.dp)|))
      ensures old(!a.neg && !b.neg) ==> !neg
      ensures |dp| <= (if old(|a.dp|) > old(|b.dp|) then old(|a.dp|) else old(|b.dp|)) + 1
    {
      hide Eval;
      hide Power;
      var sa, sb := a.neg, b.neg;
      if sa == sb {
        neg := sa;
        SAdd(a, b);
      } else {
        var r := CmpMag(a, b);
        if r == Less {
          neg := sb;
          SSub(b, a);
        } else {
          neg := sa;
          SSub(a, b);
        }
      }
      EvalNone();
    }

    method Sub(a: MpInt, b: MpInt)
      requires a.neg == b.neg ==> Comparable(a.dp, b.dp)
      modifies this
      ensures Normal() && Value() == old(a.Value() - b.Value())
      ensures |dp| <= (if old(|a.dp|) > old(|b.dp|) then old(|a.dp|) else old(|b.dp|)) + 1
    {
      hide Eval;
      var sa, sb := a.neg, b.neg;
      if sa != sb {
        neg := sa;
        SAdd(a, b);
      } else {
        var r := CmpMag(a, b);
        if r != Less {
          neg := sa;
          SSub(a, b);
        } else {
          neg := !sa;
          SSub(b, a);
        }
      }
      EvalNone();
    }

    method MulD(a: MpInt, b: Digit)
      modifies this
      ensures Normal() && Value() == old(a.Value()) * b && Mag() == old(a.Mag()) * b
      ensures neg == (old(a.neg) && dp != []) && |dp| <= old(|a.dp|) + 1
    {
      hide Eval;
      neg := a.neg;
      dp := MulDigit(a.dp, b);
      Clamp();
      EvalNone();
    }

    /** mp_lshd: zero stays zero but is no longer clamped. */
    method Lshd(b: nat)
      modifies this
      ensures dp == Zeros(b) + old(dp) && neg == old(neg) && Mag() == old(Mag()) * Power(b)
    {
      hide Eval;
      EvalShifted(dp, b);
      if b > 0 {
        dp := Zeros(b) + dp;
      } else {
        assert Zeros(b) + dp == dp;
      }
    }

    method Rshd(b: nat)
      modifies this
      ensures Mag() == old(Mag()) / Power(b) && neg == (old(neg) && (b == 0 || |old(dp)| > b))
      ensures dp == if b < |old(dp)| then old(dp)[b..] else []
      ensures old(Clamped(dp)) ==> Clamped(dp)
    {
      hide Eval;
      hide Power;
      RightShiftValue(dp, b);
      if b == 0 {
        assert dp[0..] == dp;
      } else if |dp| <= b {
        Zero();
      } else {
        dp := dp[b..];
      }
    }

    /** mp_mul_2d. */
    method Mul2d(a: MpInt, b: nat)
      modifies this
      ensures Normal() && Mag() == old(a.Mag()) * Pow2(b) && neg == (old(a.neg) && dp != [])
      ensures |dp| <= old(|a.dp|) + b / DIGIT_BIT + 1
    {
      hide Eval;
      hide Power;
      hide Pow2;
      Copy(a);
      ghost var v := Mag();
      if b >= DIGIT_BIT {
        Lshd(b / DIGIT_BIT);
      } else {
        SmallPowers();
      }
      WholeAndPart(v, b);
      var d := b % DIGIT_BIT;
      Pow2Zero();
      if d != 0 {
        dp := ShiftUpDigits(dp, d);
      }
      Clamp();
    }

    /** mp_div_2d, quotient only. */
    method Div2d(a: MpInt, b: nat)
      requires a.Normal()
      modifies this
      ensures Normal() && Mag() == old(a.Mag()) / Pow2(b) && neg == (old(a.neg) && dp != [])
      ensures |dp| <= old(|a.dp|)
    {
      hide Eval;
      hide Power;
      hide Pow2;
      Copy(a);
      ghost var v := Mag();
      Pow2Zero();
      if b == 0 {
        return;
      }
      SmallPowers();
      if b >= DIGIT_BIT {
        Rshd(b / DIGIT_BIT);
      }
      DivWholeAndPart(v, b);
      var d := b % DIGIT_BIT;
      if d != 0 {
        dp := ShiftDownDigits(dp, d);
      }
      Clamp();
    }

    /** mp_mod_2d. */
    method Mod2d(a: MpInt, b: nat)
      requires a.Normal()
      modifies this
      ensures Normal() && Mag() == old(a.Mag()) % Pow2(b) && neg == (old(a.neg) && dp != [])
      ensures |dp| <= old(|a.dp|)
    {
      hide Eval;
      hide Pow2;
      Pow2Zero();
      if b == 0 {
        Zero();
        return;
      }
      if b >= |a.dp| * DIGIT_BIT {
        SmallModulus(a.dp, b);
        Copy(a);
        return;
      }
      Copy(a);
      ghost var was := dp;
      var n := |dp|;
      var top := b / DIGIT_BIT;
      var x := top + if b % DIGIT_BIT == 0 then 0 else 1;
      while x < n
        invariant top <= x <= n == |dp| && dp[..top] == was[..top] && neg == old(a.neg)
        invariant b % DIGIT_BIT != 0 ==> x > top && dp[top] == was[top]
        invariant forall j :: top + (if b % DIGIT_BIT == 0 then 0 else 1) <= j < x ==> dp[j] == 0
      {
        dp := dp[x := 0];
        x := x + 1;
      }
      LostBelow(dp[top], b % DIGIT_BIT);
      dp := dp[top := LostBits(dp[top], b % DIGIT_BIT)];
      CutBits(was, top, b % DIGIT_BIT, dp);
      Clamp();
    }

    /** mp_2expt. */
    method TwoExpt(b: nat)
      modifies this
      ensures Normal() && !neg && Mag() == Pow2(b) && |dp| == b / DIGIT_BIT + 1
    {
      hide Eval;
      hide Power;
      hide Pow2;
      Zero();
      Pow2Below(b % DIGIT_BIT);
      dp := Zeros(b / DIGIT_BIT) + [Pow2(b % DIGIT_BIT)];
      EvalShifted([Pow2(b % DIGIT_BIT)], b / DIGIT_BIT);
      EvalOne(Pow2(b % DIGIT_BIT));
      WholeAndPart(1, b);
    }
  }

  /** Shifting by b bits is shifting by whole digits and then by what is left. */
  lemma WholeAndPart(v: nat, b: nat)
    ensures v * Power(b / DIGIT_BIT) * Pow2(b % DIGIT_BIT) == v * Pow2(b)
  {
    hide Pow2;
    hide Power;
    var w, d := b / DIGIT_BIT, b % DIGIT_BIT;
    PowerIsPow2(w);
    Pow2Add(28 * w, d);
  }

  lemma DivWholeAndPart(v: nat, b: nat)
    ensures v / Power(b / DIGIT_BIT) / Pow2(b % DIGIT_BIT) == v / Pow2(b)
  {
    hide Pow2;
    hide Power;
    WholeAndPart(1, b);
    DivTwice(v, Power(b / DIGIT_BIT), Pow2(b % DIGIT_BIT));
  }

  lemma DivTwice(v: nat, m: nat, n: nat)
    requires m > 0 && n > 0
    ensures m * n > 0 && v / m / n == v / (m * n)
  {
    MulStrict(0, m, n);
    var q, r := v / m / n, v / m % n;
    MulMonotone(r + 1, n, m);
    assert v == q * (m * n) + (r * m + v % m) by {
      assert v / m == q * n + r;
      assert v == (q * n + r) * m + v % m;
      assert (q * n + r) * m == q * (m * n) + r * m;
    }
    DivModUnique(v, m * n, q, r * m + v % m);
  }

  lemma SmallModulus(s: seq<Digit>, b: nat)
    requires b >= |s| * DIGIT_BIT
    ensures Eval(s) % Pow2(b) == Eval(s)
  {
    hide Eval;
    hide Pow2;
    EvalBound(s);
    PowerIsPow2(|s|);
    Pow2Monotone(28 * |s|, b);
    DivModUnique(Eval(s), Pow2(b), 0, Eval(s));
  }

  lemma LostBelow(d: Digit, k: nat)
    ensures LostBits(d, k) <= d
  {
    var m := Pow2(k);
    hide Pow2;
    var q := d / m;
    assert d == q * m + d % m;
    if q < 0 {
      MulMonotone(q, -1, m);
    }
  }

  /** Keeping the low 28 * w + d bits of a digit string. */
  lemma CutBits(s: seq<Digit>, w: nat, d: nat, t: seq<Digit>)
    requires d < DIGIT_BIT && w < |s| == |t|
    requires t[..w] == s[..w] && t[w] == LostBits(s[w], d)
    requires forall j :: w < j < |t| ==> t[j] == 0
    ensures Eval(t) == Eval(s) % Pow2(28 * w + d)
  {
    hide Eval;
    hide Pow2;
    hide Power;
    hide LostBits;
    EvalPadded(t[..w + 1], t);
    EvalPrefix(t, w);
    EvalSplit(s, w);
    var tail := s[w + 1..];
    EvalCons(s[w], tail);
    assert s[w..] == [s[w]] + tail;
    EvalBound(s[..w]);
    CutValue(Eval(s[..w]), s[w], Eval(tail), w, d);
  }

  lemma CutValue(low: nat, mid: Digit, high: nat, w: nat, d: nat)
    requires low < Power(w) && d < DIGIT_BIT
    ensures (low + Power(w) * (mid + RADIX * high)) % Pow2(28 * w + d) == low + Power(w) * LostBits(mid, d)
  {
    hide Pow2;
    hide Power;
    PowerIsPow2(w);
    Pow2Add(28 * w, d);
    Pow2Add(28 - d, d);
    Pow2Digit();
    var p, m, s := Power(w), Pow2(d), Pow2(28 - d);
    var q, r := mid / m, mid % m;
    var quotient := q + s * high;
    assert mid + RADIX * high == quotient * m + r by {
      assert mid == q * m + r;
      assert (q + s * high) * m == q * m + s * m * high;
    }
    assert p * (quotient * m + r) == quotient * (p * m) + p * r;
    MulMonotone(r + 1, m, p);
    assert (r + 1) * p == p * r + p;
    MulStrict(0, p, m);
    DivModUnique(low + p * (mid + RADIX * high), p * m, quotient, low + p * r);
  }

  lemma RightShiftValue(s: seq<Digit>, b: nat)
    ensures Eval(s) / Power(b) == Eval(if b < |s| then s[b..] else [])
  {
    hide Eval;
    hide Power;
    EvalNone();
    if b < |s| {
      EvalSplit(s, b);
      EvalBound(s[..b]);
      DivModUnique(Eval(s), Power(b), Eval(s[b..]), Eval(s[..b]));
    } else {
      EvalBound(s);
      PowerGrows(|s|, b);
      DivModUnique(Eval(s), Power(b), 0, Eval(s));
    }
  }
}
