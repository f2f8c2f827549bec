/** The numbers that Toom-Cook multiplication works with inside, and for which of them a product of
    different signs comes out right. */
module ToomParts {
  import opened Arith
  import opened Digits
  import opened DigitLoops
  import opened Columns

  const TOOM_MUL_CUTOFF := 350

  /** Up to here the products inside Toom-Cook are too small for Toom-Cook. */
  const ONE_LEVEL := 1034

  /** The number of digits of v. */
  ghost function Length(v: nat): nat {
    if v == 0 then 0 else 1 + Length(v / RADIX)
  }

  ghost function Shorter(u: nat, v: nat): (r: nat)
    ensures r <= Length(u) && r <= Length(v)
  {
    if Length(u) <= Length(v) then Length(u) else Length(v)
  }

  // Three parts of v: the n low digits, the n digits above them, and the rest.

  ghost function Low(v: nat, n: nat): nat {
    v % Power(n)
  }

  ghost function Mid(v: nat, n: nat): nat {
    v / Power(n) % Power(n)
  }

  ghost function High(v: nat, n: nat): nat {
    v / Power(2 * n)
  }

  /** The recombination misses: no middle parts, and low parts with a short product. */
  ghost predicate Misses(u: nat, v: nat) {
    var n := Shorter(u, v) / 3;
    n > 0 && Mid(u, n) == 0 && Mid(v, n) == 0 && 0 < Low(u, n) * Low(v, n) < Power(n - 1)
  }

  /** A product of operands of different signs with these magnitudes is right. */
  ghost predicate Exact(u: nat, v: nat)
    decreases Shorter(u, v), 1
  {
    Shorter(u, v) < TOOM_MUL_CUTOFF || (InnerExact(u, v) && !Misses(u, v))
  }

  /** So are the five products that Toom-Cook takes inside. */
  ghost predicate InnerExact(u: nat, v: nat)
    requires Shorter(u, v) >= TOOM_MUL_CUTOFF
    decreases Shorter(u, v), 0
  {
    var n := Shorter(u, v) / 3;
    var u0, u1, u2 := Low(u, n), Mid(u, n), High(u, n);
    var v0, v1, v2 := Low(v, n), Mid(v, n), High(v, n);
    PointsShorter(u, v);
    && Exact(u0, v0) && Exact(u2, v2)
    && Exact(u2 + 2 * u1 + 4 * u0, v2 + 2 * v1 + 4 * v0)
    && Exact(u2 + u1 + u0, v2 + v1 + v0)
    && Exact(u0 + 2 * u1 + 4 * u2, v0 + 2 * v1 + 4 * v2)
  }

  lemma {:induction false} LengthIs(v: nat, l: nat)
    ensures Length(v) <= l <==> v < Power(l)
    decreases l
  {
    if l > 0 && v > 0 {
      LengthIs(v / RADIX, l - 1);
    }
  }

  lemma DigitsLength(s: seq<Digit>)
    requires Clamped(s)
    ensures Length(Eval(s)) == |s|
  {
    hide Length;
    EvalBound(s);
    LengthIs(Eval(s), |s|);
    if s != [] {
      ClampedBounds(s);
      LengthIs(Eval(s), |s| - 1);
    }
  }

  /** The operands at a point of evaluation have little more than a third of the digits. */
  lemma PointShorter(u: nat, n: nat)
    requires 3 * n <= Length(u)
    ensures var u0, u1, u2 := Low(u, n), Mid(u, n), High(u, n);
      && Length(u0) <= n && Length(u2) <= Length(u) - 2 * n
      && Length(u2 + 2 * u1 + 4 * u0) <= Length(u) - 2 * n + 1
      && Length(u2 + u1 + u0) <= Length(u) - 2 * n + 1
      && Length(u0 + 2 * u1 + 4 * u2) <= Length(u) - 2 * n + 1
  {
    var l := Length(u) - 2 * n;
    var u0, u1, u2 := Low(u, n), Mid(u, n), High(u, n);
    PartBounds(u, n);
    hide *;
    LengthIs(u0, n);
    LengthIs(u2, l);
    SmallCombination(u2, u1, u0, l);
    SmallCombination(u0, u1, u2, l);
  }

  lemma SmallCombination(x: nat, y: nat, z: nat, l: nat)
    requires x < Power(l) && y < Power(l) && z < Power(l)
    ensures Length(x + 2 * y + 4 * z) <= l + 1 && Length(x + y + z) <= l + 1
  {
    PowerStep(l);
    hide Power;
    LengthIs(x + 2 * y + 4 * z, l + 1);
    LengthIs(x + y + z, l + 1);
  }

  lemma PartBounds(u: nat, n: nat)
    requires 3 * n <= Length(u)
    ensures Low(u, n) < Power(n) <= Power(Length(u) - 2 * n) && Mid(u, n) < Power(n)
    ensures High(u, n) < Power(Length(u) - 2 * n)
  {
    LengthIs(u, Length(u));
    PowerGrows(n, Length(u) - 2 * n);
    PowerAdd(2 * n, Length(u) - 2 * n);
    QuotientBound(u, Power(2 * n), Power(Length(u) - 2 * n));
  }

  lemma QuotientBound(u: nat, p: nat, q: nat)
    requires p > 0 && u < p * q
    ensures u / p < q
  {
    if u / p >= q {
      MulMonotone(q, u / p, p);
    }
  }

  lemma PointsShorter(u: nat, v: nat)
    requires Shorter(u, v) >= TOOM_MUL_CUTOFF
    ensures var n := Shorter(u, v) / 3;
      var u0, u1, u2 := Low(u, n), Mid(u, n), High(u, n);
      var v0, v1, v2 := Low(v, n), Mid(v, n), High(v, n);
      var m := Shorter(u, v) - 2 * n + 1;
      && m < Shorter(u, v)
      && Shorter(u0, v0) <= m && Shorter(u2, v2) <= m
      && Shorter(u2 + 2 * u1 + 4 * u0, v2 + 2 * v1 + 4 * v0) <= m
      && Shorter(u2 + u1 + u0, v2 + v1 + v0) <= m
      && Shorter(u0 + 2 * u1 + 4 * u2, v0 + 2 * v1 + 4 * v2) <= m
  {
    var n := Shorter(u, v) / 3;
    PointShorter(u, n);
    PointShorter(v, n);
    hide Length;
    hide Low;
    hide Mid;
    hide High;
  }

  /** With fewer than 1034 digits the products inside are all below the cutoff. */
  lemma OneLevelIsInnerExact(u: nat, v: nat)
    requires TOOM_MUL_CUTOFF <= Shorter(u, v) < ONE_LEVEL
    ensures InnerExact(u, v)
  {
    PointsShorter(u, v);
  }

  lemma InnerUnfolds(u: nat, v: nat)
    requires Shorter(u, v) >= TOOM_MUL_CUTOFF
    ensures var n := Shorter(u, v) / 3;
      var u0, u1, u2 := Low(u, n), Mid(u, n), High(u, n);
      var v0, v1, v2 := Low(v, n), Mid(v, n), High(v, n);
      && (InnerExact(u, v) <==>
          && Exact(u0, v0) && Exact(u2, v2)
          && Exact(u2 + 2 * u1 + 4 * u0, v2 + 2 * v1 + 4 * v0)
          && Exact(u2 + u1 + u0, v2 + v1 + v0)
          && Exact(u0 + 2 * u1 + 4 * u2, v0 + 2 * v1 + 4 * v2))
      && (Misses(u, v) <==> n > 0 && u1 == 0 && v1 == 0 && 0 < u0 * v0 < Power(n - 1))
      && (Exact(u, v) <==> InnerExact(u, v) && !Misses(u, v))
  {
    hide Length;
    hide Low;
    hide Mid;
    hide High;
    hide Power;
  }

  lemma ShorterOfDigits(s: seq<Digit>, t: seq<Digit>)
    requires Clamped(s) && Clamped(t)
    ensures Shorter(Eval(s), Eval(t)) == if |s| <= |t| then |s| else |t|
  {
    DigitsLength(s);
    DigitsLength(t);
  }
}
