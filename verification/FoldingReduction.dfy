/** mp_reduce_2k: reduction modulo 2^p - d by folding the high bits onto the low ones,
    and the test that chooses it. */
module FoldingReduction {
  import opened Arith
  import opened Digits
  import opened DigitLoops
  import opened BitShifts
  import opened Bits
  import opened BigInt
  import opened Congruence
  import opened Division
  import opened Montgomery

  /** n is 2^p - d, where p is the number of bits of n. */
  ghost predicate Folds(n: seq<Digit>, d: Digit, p: nat) {
    HasBits(Eval(n), p) && Eval(n) + d == Pow2(p)
  }

  /** hi * 2^p + lo is lo + hi * d modulo 2^p - d, and no smaller. */
  lemma FoldOnce(a: nat, n: nat, d: nat, w: nat)
    requires n + d == w && n > 0 && w > 0
    ensures var b := a % w + a / w * d; b <= a && a / w >= 0 && Congruent(b, a, n)
  {
    var hi, lo := a / w, a % w;
    QuotientOf(a, w, 0);
    assert a == hi * w + lo;
    assert hi * (n + d) == hi * n + hi * d;
    MulMonotone(0, hi, n);
    assert (-hi) * n == -(hi * n);
    CongruentBy(lo + hi * d, a, n, -hi);
  }

  /** With no multiple of the quotient added back, only the low bits are kept. */
  lemma FoldNothing(a: nat, n: nat, w: nat, r: nat)
    requires 0 < n <= w <= 2 * n && r == a % w
    ensures r < n ==> r == a % w % n
    ensures r >= n ==> (r - n) % w == r - n < n && r - n == a % w % n
  {
    if r < n {
      DivModUnique(r, n, 0, r);
    } else {
      DivModUnique(r, n, 1, r - n);
      DivModUnique(r - n, w, 0, r - n);
    }
  }

  /** mp_reduce_2k: a becomes a mod n where d is 2^p - n; with d = 0 it becomes
      a mod 2^p mod n. */
  method Reduce2k(a: MpInt, n: MpInt, d: Digit, ghost p: nat)
    requires a != n && a.Normal() && n.Normal() && !a.neg && n.Mag() > 0
    requires HasBits(n.Mag(), p) && (n.Mag() + d == Pow2(p) || d == 0)
    modifies a
    ensures a.Normal() && !a.neg && a.Mag() < n.Mag()
    ensures n.Mag() + d == Pow2(p) ==> Congruent(a.Mag(), old(a.Mag()), n.Mag())
    ensures d == 0 ==> a.Mag() == old(a.Mag()) % Pow2(p) % n.Mag()
  {
    hide Eval;
    hide Congruent;
    ghost var v, m, w := a.Mag(), n.Mag(), Pow2(p);
    HalfWidth(m, p);
    hide Pow2;
    hide HasBits;
    Reflexive(v, m);
    var q := new MpInt();
    var bits := CountBits(n.dp);
    BitsAreUnique(m, bits, p);
    var more := true;
    while more
      invariant fresh(q) && a.Normal() && !a.neg && a.Mag() <= v && (!more ==> a.Mag() < m)
      invariant m + d == w ==> Congruent(a.Mag(), v, m)
      invariant d == 0 ==> if more then a.Mag() == v || (a.Mag() < m && a.Mag() == v % w % m) else a.Mag() == v % w % m
      decreases more, a.Mag()
    {
      ghost var b := a.Mag();
      FoldValue(b, m, d, w, v);
      Fold(a, q, d, bits);
      ghost var c := a.Mag();
      if m + d == w {
        Transitive(c, b, v, m);
      }
      var r := MpInt.CmpMag(a, n);
      if r == Less {
        more := false;
      } else {
        OrderedLengths(a.dp, n.dp);
        a.SSub(a, n);
        CongruentBy(a.Mag(), c, m, -1);
        if m + d == w {
          Transitive(a.Mag(), c, v, m);
        }
      }
    }
  }

  lemma HalfWidth(n: nat, p: nat)
    requires HasBits(n, p) && n > 0
    ensures n < Pow2(p) <= 2 * n
  {
    Pow2Zero();
    if p > 0 {
      Pow2Doubles(p - 1);
    }
  }

  /** One turn of the loop, in numbers. */
  lemma FoldValue(b: nat, m: nat, d: nat, w: nat, v: nat)
    requires 0 < m < w <= 2 * m && (m + d == w || d == 0)
    requires d == 0 ==> b == v || (b < m && b == v % w % m)
    ensures var c := b % w + b / w * d;
            && 0 <= c <= b && (m + d == w ==> Congruent(c, b, m))
            && (d == 0 ==> (c < m ==> c == v % w % m) && (c >= m ==> c - m < m && c - m == v % w % m))
  {
    if d == 0 {
      DropHigh(b, m, w, v);
    } else {
      FoldOnce(b, m, d, w);
    }
  }

  lemma DropHigh(b: nat, m: nat, w: nat, v: nat)
    requires 0 < m < w <= 2 * m && (b == v || (b < m && b == v % w % m))
    ensures var c := b % w;
            && b / w * 0 == 0 && c <= b
            && (c < m ==> c == v % w % m) && (c >= m ==> c - m < m && c - m == v % w % m)
  {
    SmallRemainder(b, w);
    if b == v {
      FoldNothing(v, m, w, v % w);
    } else {
      DivModUnique(b, w, 0, b);
    }
  }

  lemma SmallRemainder(b: nat, w: nat)
    requires w > 0
    ensures b % w <= b && b / w * 0 == 0
  {
    QuotientOf(b, w, 0);
    assert b == b / w * w + b % w;
    MulMonotone(0, b / w, w);
  }

  /** a := a mod 2^p + a / 2^p * d. */
  method Fold(a: MpInt, q: MpInt, d: Digit, bits: nat)
    requires a != q && a.Normal() && !a.neg
    modifies a, q
    ensures a.Normal() && !a.neg && a.Mag() == old(a.Mag()) % Pow2(bits) + old(a.Mag()) / Pow2(bits) * d
  {
    hide Eval;
    hide Pow2;
    q.Div2d(a, bits);
    a.Mod2d(a, bits);
    if d != 1 {
      q.MulD(q, d);
    }
    a.SAdd(a, q);
  }

  /** mp_reduce_2k_setup: d is the low digit of 2^p - n, which is all of it exactly when
      2^p - n has a single digit. */
  method Reduce2kSetup(n: MpInt, ghost p: nat) returns (d: Digit)
    requires n.Normal() && !n.neg && n.Mag() > 0 && HasBits(n.Mag(), p)
    ensures d == (Pow2(p) - n.Mag()) % RADIX
    ensures Folds(n.dp, d, p) <==> Pow2(p) - n.Mag() < RADIX
  {
    hide Eval;
    hide Pow2;
    var tmp := new MpInt();
    var bits := CountBits(n.dp);
    BitsAreUnique(n.Mag(), bits, p);
    tmp.TwoExpt(bits);
    OrderedLengths(tmp.dp, n.dp);
    tmp.SSub(tmp, n);
    LowDigitOf(tmp.dp);
    d := if |tmp.dp| > 0 then tmp.dp[0] else 0;
  }

  lemma LowDigitOf(s: seq<Digit>)
    ensures (if |s| > 0 then s[0] else 0) == Eval(s) % RADIX
    ensures Eval(s) % RADIX == Eval(s) <==> Eval(s) < RADIX
  {
    EvalNone();
    if |s| > 0 {
      EvalHead(s);
      DivModUnique(Eval(s), RADIX, Eval(s[1..]), s[0]);
    }
  }

  // ------------------------------------------------------------------- the test

  /** Bit j of the number v. */
  ghost function BitAt(v: nat, j: nat): nat {
    v / Pow2(j) % 2
  }

  /** A bit of a digit string is a bit of one of its digits. */
  lemma {:induction false} BitOfDigits(s: seq<Digit>, w: nat, k: nat)
    requires w < |s| && k < 28
    ensures BitAt(Eval(s), 28 * w + k) == BitAt(s[w], k)
    decreases w
  {
    hide *;
    EvalHead(s);
    var tail := s[1..];
    if w == 0 {
      LowBitOfSum(s[0], Eval(tail), k);
    } else {
      BitOfDigits(tail, w - 1, k);
      HighBitOfSum(s[0], Eval(tail), 28 * (w - 1) + k);
      assert 28 * (w - 1) + k + 28 == 28 * w + k;
    }
  }

  lemma LowBitOfSum(d: Digit, t: nat, j: nat)
    requires j < 28
    ensures BitAt(d + RADIX * t, j) == BitAt(d, j)
  {
    Pow2Add(j, 28 - j);
    Pow2Digit();
    Pow2Doubles(27 - j);
    hide Pow2;
    LowBitValue(d, t, Pow2(j), Pow2(27 - j));
  }

  lemma LowBitValue(d: nat, t: nat, p: nat, q: nat)
    requires p > 0 && p * (2 * q) == RADIX
    ensures (d + RADIX * t) / p % 2 == d / p % 2
  {
    var k := q * t;
    assert p * (2 * q) == 2 * (p * q);
    assert 2 * (p * q) * t == 2 * (p * q * t);
    assert p * q * t == k * p;
    assert 2 * k * p == 2 * (k * p);
    ModAddMultiple(d, 2 * k, p);
    ModAddMultiple(d / p, k, 2);
  }

  lemma HighBitOfSum(d: Digit, t: nat, j: nat)
    ensures BitAt(d + RADIX * t, j + 28) == BitAt(t, j)
  {
    Pow2Add(28, j);
    Pow2Digit();
    hide Pow2;
    DivModUnique(d + RADIX * t, RADIX, t, d);
    DivTwice(d + RADIX * t, RADIX, Pow2(j));
  }

  lemma BitOfHalf(h: nat, j: nat)
    ensures BitAt(h, j + 1) == BitAt(h / 2, j) && BitAt(h, 0) == h % 2
  {
    Pow2Doubles(j);
    Pow2Zero();
    hide Pow2;
    DivTwice(h, 2, Pow2(j));
    DivModUnique(h, 1, h, 0);
  }

  /** m bits, all of them set. */
  lemma {:induction false} AllBitsSet(h: nat, m: nat)
    requires h < Pow2(m)
    ensures (forall j :: 0 <= j < m ==> BitAt(h, j) == 1) <==> h == Pow2(m) - 1
    decreases m
  {
    hide BitAt;
    Pow2Zero();
    if m > 0 {
      Pow2Doubles(m - 1);
      hide Pow2;
      AllBitsSet(h / 2, m - 1);
      BitOfHalf(h, 0);
      forall j | 0 <= j < m - 1
        ensures BitAt(h, j + 1) == BitAt(h / 2, j)
      {
        BitOfHalf(h, j);
      }
      if forall j :: 0 <= j < m ==> BitAt(h, j) == 1 {
        forall j | 0 <= j < m - 1
          ensures BitAt(h / 2, j) == 1
        {
          assert BitAt(h, j + 1) == 1;
        }
      }
      if h == Pow2(m) - 1 {
        forall j | 0 <= j < m
          ensures BitAt(h, j) == 1
        {
          if j > 0 {
            assert BitAt(h, (j - 1) + 1) == BitAt(h / 2, j - 1);
          }
        }
      }
    }
  }

  /** Bits 28 to p - 1 are all set exactly when v is within 2^28 of 2^p. */
  lemma OnesAbove(v: nat, p: nat)
    requires p > 28 && v < Pow2(p)
    ensures (forall j :: 28 <= j < p ==> BitAt(v, j) == 1) <==> Pow2(p) - v <= RADIX
  {
    hide BitAt;
    var h, low, m := v / RADIX, v % RADIX, p - 28;
    Pow2Add(28, m);
    Pow2Digit();
    hide Pow2;
    assert v == low + RADIX * h;
    AllBitsSet(h, m);
    forall j | 0 <= j < m
      ensures BitAt(v, j + 28) == BitAt(h, j)
    {
      HighBitOfSum(low, h, j);
    }
    if forall j :: 28 <= j < p ==> BitAt(v, j) == 1 {
      forall j | 0 <= j < m
        ensures BitAt(h, j) == 1
      {
        assert BitAt(v, j + 28) == 1;
      }
    }
    if h == Pow2(m) - 1 {
      forall j | 28 <= j < p
        ensures BitAt(v, j) == 1
      {
        assert BitAt(v, (j - 28) + 28) == BitAt(h, j - 28);
      }
    }
  }

  lemma OneDigitIsNear(v: nat, p: nat)
    requires HasBits(v, p) && 0 < v < RADIX
    ensures 0 < Pow2(p) - v <= RADIX / 2
  {
    HalfWidth(v, p);
    Pow2Digit();
    Pow2Zero();
    hide Pow2;
    if p > 28 {
      Pow2Monotone(28, p - 1);
    } else if p > 0 {
      Pow2Monotone(p - 1, 27);
      Pow2Doubles(p - 1);
      Pow2Doubles(27);
    }
  }

  /** mp_reduce_is_2k. It also accepts 2^p - n equal to 2^28, which has two digits. */
  method ReduceIs2k(n: MpInt, ghost p: nat) returns (yes: bool)
    requires n.Normal() && HasBits(n.Mag(), p)
    ensures yes <==> n.Mag() > 0 && Pow2(p) - n.Mag() <= RADIX
  {
    hide Eval;
    hide BitAt;
    ClampedZero(n.dp);
    if |n.dp| == 0 {
      return false;
    } else if |n.dp| == 1 {
      EvalOne(n.dp[0]);
      assert n.dp == [n.dp[0]];
      OneDigitIsNear(n.Mag(), p);
      return true;
    }
    var iy := CountBits(n.dp);
    BitsAreUnique(n.Mag(), iy, p);
    OnesAbove(n.Mag(), iy);
    Pow2Zero();
    Pow2Digit();
    hide Pow2;
    hide HasBits;
    var iz: Cell, iw: nat, ix: nat := 1, 1, 28;
    while ix < iy
      invariant 28 <= ix <= iy && iw == ix / 28 && iz == Pow2(ix % 28)
      invariant forall j :: 28 <= j < ix ==> BitAt(n.Mag(), j) == 1
    {
      BitOfDigits(n.dp, iw, ix % 28);
      assert 28 * iw + ix % 28 == ix;
      BitAtIs(n.dp[iw], ix % 28);
      if n.dp[iw] / iz % 2 == 0 {
        return false;
      }
      Pow2Doubles(ix % 28);
      Pow2Below(ix % 28);
      NextBitPlace(ix);
      iz := iz * 2;
      if iz > RADIX - 1 {
        iw, iz := iw + 1, 1;
      }
      ix := ix + 1;
    }
    return true;
  }

  lemma BitAtIs(v: nat, j: nat)
    ensures BitAt(v, j) == v / Pow2(j) % 2 && 0 <= BitAt(v, j) <= 1
  {
    hide Pow2;
  }

  lemma NextBitPlace(ix: nat)
    ensures if ix % 28 == 27 then (ix + 1) / 28 == ix / 28 + 1 && (ix + 1) % 28 == 0
            else (ix + 1) / 28 == ix / 28 && (ix + 1) % 28 == ix % 28 + 1
    ensures ix % 28 < 27 ==> Pow2(ix % 28 + 1) < RADIX
    ensures Pow2(28) == RADIX
  {
    Pow2Digit();
    hide Pow2;
    if ix % 28 < 27 {
      Pow2Below(ix % 28 + 1);
    }
  }

  // --------------------------------------------------------- when folding is right

  /** The moduli the test accepts. */
  ghost predicate Accepted(n: nat, p: nat) {
    HasBits(n, p) && n > 0 && Pow2(p) - n <= RADIX
  }

  /** What the reduction makes of a with the constant of the set-up. */
  ghost function Folded(a: nat, n: nat, p: nat): nat
    requires Accepted(n, p)
  {
    Pow2Positive(p);
    if Pow2(p) - n < RADIX then a % n else a % Pow2(p) % n
  }

  /** 2^p - n has one digit, or n is 2^28. */
  ghost predicate FoldsRight(n: nat, p: nat) {
    Pow2(p) - n < RADIX || n == RADIX
  }

  lemma Pow2Positive(p: nat)
    ensures Pow2(p) > 0
  {
  }

  lemma DoubleRadix(a: nat)
    ensures a % (2 * RADIX) % RADIX == a % RADIX
  {
    var q := a / (2 * RADIX);
    ModAddMultiple(a % (2 * RADIX), 2 * q, RADIX);
  }

  /** 2^p itself is reduced to 0. */
  lemma PowerIsLost(n: nat, p: nat)
    requires Accepted(n, p) && !FoldsRight(n, p)
    ensures Folded(Pow2(p), n, p) == 0 && Pow2(p) % n == RADIX
  {
    HalfWidth(n, p);
    var w := Pow2(p);
    hide Pow2;
    DivModUnique(w, w, 1, 0);
    DivModUnique(0, n, 0, 0);
    DivModUnique(w, n, 1, RADIX);
  }

  /** An accepted modulus is reduced by rightly, whatever the number, exactly under this condition. */
  lemma FoldsRightIsExact(n: nat, p: nat)
    requires Accepted(n, p)
    ensures (forall a: nat :: Folded(a, n, p) == a % n) <==> FoldsRight(n, p)
  {
    if !FoldsRight(n, p) {
      PowerIsLost(n, p);
      assert Folded(Pow2(p), n, p) != Pow2(p) % n;
    } else {
      forall a: nat
        ensures Folded(a, n, p) == a % n
      {
        if Pow2(p) - n >= RADIX {
          DoubleRadix(a);
        }
      }
    }
  }

  /** The reduction with the constant of the set-up. */
  method ReduceFolded(a: MpInt, n: MpInt, d: Digit, ghost p: nat)
    requires a != n && a.Normal() && n.Normal() && !a.neg && Accepted(n.Mag(), p) && d == (Pow2(p) - n.Mag()) % RADIX
    modifies a
    ensures a.Normal() && !a.neg && a.Mag() == Folded(old(a.Mag()), n.Mag(), p) < n.Mag()
  {
    hide Eval;
    hide Congruent;
    ghost var v := a.Mag();
    ghost var w := Pow2(p) - n.Mag();
    HalfWidth(n.Mag(), p);
    hide Pow2;
    if w < RADIX {
      DivModUnique(w, RADIX, 0, w);
    } else {
      ModMultiple(1, RADIX);
    }
    Reduce2k(a, n, d, p);
    if w < RADIX {
      Symmetric(a.Mag(), v, n.Mag());
      IsRemainder(v, a.Mag(), n.Mag());
    }
  }

  /** The test, the set-up and the reduction together, as mp_exptmod puts them together. */
  method ReduceSpecial(a: MpInt, n: MpInt, ghost p: nat) returns (yes: bool)
    requires a != n && a.Normal() && n.Normal() && !a.neg && !n.neg && HasBits(n.Mag(), p)
    modifies a
    ensures yes <==> Accepted(n.Mag(), p)
    ensures yes ==> a.Normal() && !a.neg && a.Mag() == Folded(old(a.Mag()), n.Mag(), p)
    ensures !yes ==> a.dp == old(a.dp) && a.neg == old(a.neg)
  {
    hide Eval;
    hide Pow2;
    hide HasBits;
    hide Folded;
    yes := ReduceIs2k(n, p);
    if yes {
      var d := Reduce2kSetup(n, p);
      ReduceFolded(a, n, d, p);
    }
  }

  lemma SmallNumbers()
    ensures Eval([0, 3]) == 3 * RADIX && Eval([0, 4]) == 4 * RADIX && HasBits(3 * RADIX, 30) && Pow2(30) == 4 * RADIX
  {
    Pow2Digit();
    EvalOne(3);
    EvalOne(4);
    EvalCons(0, [3]);
    EvalCons(0, [4]);
    assert [0, 3] == [0] + [3] && [0, 4] == [0] + [4];
    Pow2Doubles(28);
    Pow2Doubles(29);
    hide Pow2;
  }

  /** n = 3 * 2^28 passes the test, and 2^30 is then reduced to 0 instead of 2^28. */
  method WrongFold() returns (n: MpInt, a: MpInt, yes: bool)
    ensures n.Mag() == 3 * RADIX && yes && a.Mag() == 0 && Pow2(30) % (3 * RADIX) == RADIX
  {
    SmallNumbers();
    hide Eval;
    hide HasBits;
    n := new MpInt();
    a := new MpInt();
    n.dp, a.dp := [0, 3], [0, 4];
    PowerIsLost(3 * RADIX, 30);
    hide Pow2;
    yes := ReduceSpecial(a, n, 30);
  }
}
