/** Products by columns: column k of a product collects the digit pairs whose positions add up to k. */
module Columns {
  import opened Arith
  import opened Digits
  import opened DigitLoops

  /** The sum of all a[i] * b[j] with i + j == k. */
  function Column(a: seq<Digit>, b: seq<Digit>, k: nat): nat {
    if a == [] then 0
    else (if k < |b| then a[0] * b[k] else 0) + (if k > 0 then Column(a[1..], b, k - 1) else 0)
  }

  /** The first n columns, each in its place. */
  function ColumnSum(a: seq<Digit>, b: seq<Digit>, n: nat): nat {
    if n == 0 then 0 else ColumnSum(a, b, n - 1) + Power(n - 1) * Column(a, b, n - 1)
  }

  /** n products, walking up a from x and down b from y. */
  function Pairs(a: seq<Digit>, b: seq<Digit>, x: nat, y: int, n: nat): nat
    requires x + n <= |a| && n <= y + 1 <= |b|
    decreases n
  {
    if n == 0 then 0 else a[x] * b[y] + Pairs(a, b, x + 1, y - 1, n - 1)
  }

  lemma {:induction false} PairsTail(a: seq<Digit>, b: seq<Digit>, x: nat, y: int, n: nat)
    requires a != [] && x + n <= |a| - 1 && n <= y + 1 <= |b|
    ensures Pairs(a[1..], b, x, y, n) == Pairs(a, b, x + 1, y, n)
    decreases n
  {
    if n > 0 {
      PairsTail(a, b, x + 1, y - 1, n - 1);
    }
  }

  function Least(x: int, y: int): int {
    if x < y then x else y
  }

  /** The walk of the column loop covers exactly the pairs of the column. */
  lemma {:induction false} ColumnIsPairs(a: seq<Digit>, b: seq<Digit>, k: nat)
    requires k - Least(|b| - 1, k) <= |a|
    ensures var y := Least(|b| - 1, k); var x := k - y;
            Column(a, b, k) == Pairs(a, b, x, y, Least(|a| - x, y + 1))
    decreases |a|
  {
    var y := Least(|b| - 1, k);
    var x := k - y;
    if a != [] {
      if x > 0 {
        if k > 0 {
          ColumnIsPairs(a[1..], b, k - 1);
        }
        if b != [] {
          PairsTail(a, b, x - 1, y, Least(|a| - x, y + 1));
        }
      } else if k > 0 {
        ColumnIsPairs(a[1..], b, k - 1);
        PairsTail(a, b, 0, y - 1, Least(|a| - 1, y));
      }
    }
  }

  lemma {:induction false} EmptyColumns(b: seq<Digit>, n: nat)
    ensures ColumnSum([], b, n) == 0
  {
    if n > 0 {
      EmptyColumns(b, n - 1);
    }
  }

  function Clipped(s: seq<Digit>, n: nat): seq<Digit> {
    if n < |s| then s[..n] else s
  }

  lemma ColumnSumStep(a: seq<Digit>, b: seq<Digit>, n: nat)
    ensures ColumnSum(a, b, n + 1) == ColumnSum(a, b, n) + Power(n) * Column(a, b, n)
  {
  }

  lemma ColumnSumNone(a: seq<Digit>, b: seq<Digit>)
    ensures ColumnSum(a, b, 0) == 0
  {
  }

  lemma ColumnHead(a: seq<Digit>, b: seq<Digit>, k: nat)
    requires a != []
    ensures Column(a, b, k) == (if k < |b| then a[0] * b[k] else 0) + (if k > 0 then Column(a[1..], b, k - 1) else 0)
  {
  }

  lemma ClippedNone(b: seq<Digit>)
    ensures Eval(Clipped(b, 0)) == 0
  {
    EvalNone();
    assert Clipped(b, 0) == [];
  }

  /** The first digit's share of the columns, and the rest one place further up. */
  lemma {:induction false} ColumnSumSplit(a: seq<Digit>, b: seq<Digit>, n: nat)
    requires a != []
    ensures ColumnSum(a, b, n + 1) == a[0] * Eval(Clipped(b, n + 1)) + RADIX * ColumnSum(a[1..], b, n)
    decreases n
  {
    hide *;
    ColumnSumStep(a, b, n);
    ColumnHead(a, b, n);
    FirstClipped(a[0], b, n);
    var r: nat := if n < |b| then a[0] as int * b[n] as int else 0;
    if n == 0 {
      ColumnSumNone(a, b);
      ColumnSumNone(a[1..], b);
      ClippedNone(b);
      NothingPlus(a[0], Power(0), r);
    } else {
      ColumnSumSplit(a, b, n - 1);
      ColumnSumStep(a[1..], b, n - 1);
      PowerStep(n - 1);
      ColumnShare(Power(n - 1), r, Column(a[1..], b, n - 1), ColumnSum(a[1..], b, n - 1));
    }
  }

  lemma NothingPlus(d: int, p: int, r: int)
    ensures d * 0 + p * r == p * r && p * (r + 0) == p * r
  {
  }

  lemma ColumnShare(p: nat, r: nat, q: nat, c: nat)
    ensures RADIX * p * (r + q) + RADIX * c == RADIX * p * r + RADIX * (c + p * q)
  {
    assert RADIX * p * (r + q) == RADIX * p * r + RADIX * p * q;
  }

  lemma FirstClipped(d: Digit, b: seq<Digit>, n: nat)
    ensures d * Eval(Clipped(b, n + 1)) == d * Eval(Clipped(b, n)) + Power(n) * (if n < |b| then d * b[n] else 0)
  {
    hide Eval;
    hide Power;
    if n < |b| {
      EvalPrefix(b, n);
      assert b[..|b|] == b;
      assert d * (Eval(b[..n]) + Power(n) * b[n]) == d * Eval(b[..n]) + Power(n) * (d * b[n]);
    }
  }

  lemma ClippedRest(b: seq<Digit>, n: nat) returns (rest: nat)
    ensures Eval(b) == Eval(Clipped(b, n)) + Power(n) * rest && (n >= |b| ==> rest == 0)
  {
    rest := 0;
    if n < |b| {
      EvalSplit(b, n);
      rest := Eval(b[n..]);
    }
  }

  /** The columns add up to the product: what n columns leave out is a multiple of
      b^n, and nothing once n reaches the length of the product. */
  lemma {:induction false} Convolution(a: seq<Digit>, b: seq<Digit>, n: nat) returns (rest: nat)
    ensures Eval(a) * Eval(b) == ColumnSum(a, b, n) + Power(n) * rest
    ensures n >= |a| + |b| ==> rest == 0
    decreases |a|
  {
    hide *;
    SmallPowers();
    if a == [] {
      EmptyColumns(b, n);
      EvalNone();
      rest := 0;
    } else if n == 0 {
      ColumnSumNone(a, b);
      rest := Eval(a) * Eval(b);
    } else {
      var above := Convolution(a[1..], b, n - 1);
      ColumnSumSplit(a, b, n - 1);
      var over := ClippedRest(b, n);
      rest := a[0] * over + above;
      PowerStep(n - 1);
      EvalHead(a);
      ConvolutionValue(a[0], Eval(a[1..]), Eval(b), Eval(Clipped(b, n)), ColumnSum(a[1..], b, n - 1), Power(n - 1), above, over);
    }
  }

  lemma ConvolutionValue(d: nat, e: nat, f: nat, clipped: nat, sum: nat, p: nat, above: nat, over: nat)
    requires f == clipped + RADIX * p * over && e * f == sum + p * above
    ensures (d + RADIX * e) * f == d * clipped + RADIX * sum + RADIX * p * (d * over + above)
  {
    assert (d + RADIX * e) * f == d * f + RADIX * (e * f);
    assert d * (clipped + RADIX * p * over) == d * clipped + RADIX * p * (d * over);
    assert RADIX * p * (d * over + above) == RADIX * p * (d * over) + RADIX * (p * above);
  }

  lemma {:induction false} PairsBound(a: seq<Digit>, b: seq<Digit>, x: nat, y: int, n: nat)
    requires x + n <= |a| && n <= y + 1 <= |b|
    ensures Pairs(a, b, x, y, n) <= n * ((RADIX - 1) * (RADIX - 1))
    decreases n
  {
    if n > 0 {
      PairsBound(a, b, x + 1, y - 1, n - 1);
      ProductFits(a[x], b[y], 0);
      MulMonotone(a[x], RADIX - 1, b[y]);
      MulMonotone(b[y], RADIX - 1, RADIX - 1);
    }
  }

  /** The n columns below place n. */
  lemma {:induction false} ColumnSumBound(a: seq<Digit>, b: seq<Digit>, n: nat)
    requires n <= |a| + |b|
    ensures ColumnSum(a, b, n) <= n * (RADIX - 1) * Power(n)
  {
    if n > 0 {
      ColumnSumBound(a, b, n - 1);
      hide *;
      var k := n - 1;
      ColumnSumStep(a, b, k);
      ColumnIsPairs(a, b, k);
      var y := Least(|b| - 1, k);
      LeastIs(|b| - 1, k);
      LeastIs(|a| - (k - y), y + 1);
      var terms := Least(|a| - (k - y), y + 1);
      PairsBound(a, b, k - y, y, terms);
      MulMonotone(terms, n, (RADIX - 1) * (RADIX - 1));
      PowerStep(k);
      ColumnBoundValue(ColumnSum(a, b, k), n, Power(k), Column(a, b, k));
    }
  }

  lemma LeastIs(x: int, y: int)
    ensures Least(x, y) <= x && Least(x, y) <= y && (Least(x, y) == x || Least(x, y) == y)
  {
  }

  lemma ColumnBoundValue(sum: nat, n: nat, p: nat, c: nat)
    requires n > 0 && sum <= (n - 1) * (RADIX - 1) * p && c <= n * ((RADIX - 1) * (RADIX - 1))
    ensures sum + p * c <= n * (RADIX - 1) * (RADIX * p)
  {
    var m := n * (RADIX - 1);
    MulMonotone(c, m * (RADIX - 1), p);
    assert m * (RADIX - 1) == n * ((RADIX - 1) * (RADIX - 1));
    assert m * (RADIX - 1) * p == m * p * RADIX - m * p;
    MulMonotone((n - 1) * (RADIX - 1), m, p);
    assert m * (RADIX * p) == m * p * RADIX;
  }

  lemma ProductBelow(a: seq<Digit>, b: seq<Digit>)
    ensures Eval(a) * Eval(b) < Power(|a| + |b|)
  {
    hide *;
    EvalBound(a);
    EvalBound(b);
    PowerAdd(|a|, |b|);
    MulMonotone(Eval(a), Power(|a|), Eval(b));
    MulStrict(Eval(b), Power(|b|), Power(|a|));
  }

  lemma {:induction false} PairsLast(a: seq<Digit>, b: seq<Digit>, x: nat, y: int, n: nat)
    requires x + n <= |a| && 0 < n <= y + 1 <= |b|
    ensures Pairs(a, b, x, y, n) == Pairs(a, b, x, y, n - 1) + a[x + n - 1] as nat * b[y - n + 1] as nat
    decreases n
  {
    if n > 1 {
      PairsLast(a, b, x + 1, y - 1, n - 1);
    }
  }

  /** Half of a symmetric walk is enough; an odd one has a square in the middle. */
  lemma {:induction false} SymmetricPairs(a: seq<Digit>, x: nat, y: int, n: nat)
    requires x + n <= |a| && n <= y + 1 <= |a| && n == y - x + 1
    ensures Pairs(a, a, x, y, n)
         == 2 * Pairs(a, a, x, y, n / 2) + if (x + y) % 2 == 0 then a[(x + y) / 2] as nat * a[(x + y) / 2] as nat else 0
    decreases n
  {
    if n >= 2 {
      SymmetricPairs(a, x + 1, y - 1, n - 2);
      PairsLast(a, a, x + 1, y - 1, n - 1);
      assert a[x] as nat * a[y] as nat == a[y] as nat * a[x] as nat;
      assert Pairs(a, a, x, y, n / 2) == a[x] * a[y] + Pairs(a, a, x + 1, y - 1, n / 2 - 1);
    } else if n == 1 {
      assert (x + y) / 2 == x;
      assert Pairs(a, a, x + 1, y - 1, 0) == 0;
    }
  }

  /** A column of a square, from half of its pairs. */
  lemma SquareColumn(a: seq<Digit>, k: nat)
    requires k < 2 * |a|
    ensures var y := Least(|a| - 1, k); var x := k - y; var n := Least(|a| - x, y + 1);
            && 0 <= n == y - x + 1 && n <= |a|
            && Column(a, a, k)
            == 2 * Pairs(a, a, x, y, n / 2) + if k % 2 == 0 then a[k / 2] as nat * a[k / 2] as nat else 0
  {
    hide Pairs;
    hide Column;
    var y := Least(|a| - 1, k);
    ColumnIsPairs(a, a, k);
    SymmetricPairs(a, k - y, y, y - (k - y) + 1);
  }

  /** Row ix's share of the low columns. */
  lemma {:induction false} LowColumnsOfRow(a: seq<Digit>, b: seq<Digit>, ix: nat, n: nat)
    requires ix < |a| && ix <= n
    ensures ColumnSum(a[..ix + 1], b, n)
         == ColumnSum(a[..ix], b, n) + Power(ix) * (a[ix] * Eval(Clipped(b, n - ix)))
    decreases ix
  {
    hide *;
    if n == 0 {
      ColumnSumNone(a[..ix + 1], b);
      ColumnSumNone(a[..ix], b);
      ClippedNone(b);
    } else {
      ColumnSumSplit(a[..ix + 1], b, n - 1);
      assert a[..ix + 1][0] == a[0];
      var tail := a[1..];
      assert a[..ix + 1][1..] == tail[..ix];
      if ix == 0 {
        assert a[..0] == [];
        assert tail[..0] == [];
        EmptyColumns(b, n);
        EmptyColumns(b, n - 1);
        SmallPowers();
      } else {
        ColumnSumSplit(a[..ix], b, n - 1);
        assert a[..ix][1..] == tail[..ix - 1];
        LowColumnsOfRow(tail, b, ix - 1, n - 1);
        PowerStep(ix - 1);
      }
    }
  }
}
