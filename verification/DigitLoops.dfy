/** The digit-by-digit loops under every big-number operation. */
module DigitLoops {
  import opened Arith
  import opened Digits
  import opened Bits

  datatype Order = Less | Equal | Greater

  /** Appending one column: its low 28 bits become the digit, the rest is carried. */
  lemma CarryStep(c: seq<Digit>, t: nat)
    ensures Eval(c + [t % RADIX]) + Power(|c| + 1) * (t / RADIX) == Eval(c) + Power(|c|) * t
  {
    hide Eval;
    EvalAppend(c, t % RADIX);
    PowerStep(|c|);
    hide Power;
    CarryValue(Power(|c|), t / RADIX, t % RADIX, t);
  }

  lemma CarryValue(p: int, q: int, r: int, t: int)
    requires t == r + RADIX * q
    ensures p * r + RADIX * p * q == p * t
  {
    assert p * t == p * r + p * (RADIX * q);
  }

  lemma Distribute3(p: int, x: int, y: int, z: int)
    ensures p * (x + y + z) == p * x + p * y + p * z
  {
  }

  /** s_mp_add without the clamp. */
  method AddDigits(a: seq<Digit>, b: seq<Digit>) returns (c: seq<Digit>)
    ensures Eval(c) == Eval(a) + Eval(b)
    ensures |c| == (if |a| > |b| then |a| else |b|) + 1
  {
    hide Eval;
    hide Power;
    var min, max, x := |a|, |b|, b;
    if |a| > |b| {
      min, max, x := |b|, |a|, a;
    }
    var u: Cell := 0;
    var i := 0;
    c := [];
    SmallPowers();
    EvalNone();
    assert a[..0] == [] && b[..0] == [];
    while i < min
      invariant i <= min && |c| == i && u <= 1
      invariant Eval(c) + Power(i) * u == Eval(a[..i]) + Eval(b[..i])
    {
      var t: Cell := a[i] + b[i] + u;
      CarryStep(c, t);
      EvalPrefix(a, i);
      EvalPrefix(b, i);
      Distribute3(Power(i), a[i], b[i], u);
      c, u, i := c + [t % RADIX], t / RADIX, i + 1;
    }
    ghost var low := Eval(if |a| > |b| then b else a);
    assert a[..|a|] == a && b[..|b|] == b;
    while i < max
      invariant min <= i <= max && |c| == i && u <= 1
      invariant Eval(c) + Power(i) * u == Eval(x[..i]) + low
    {
      var t: Cell := x[i] + u;
      CarryStep(c, t);
      EvalPrefix(x, i);
      Distribute3(Power(i), x[i], u, 0);
      c, u, i := c + [t % RADIX], t / RADIX, i + 1;
    }
    assert x[..max] == x;
    EvalAppend(c, u);
    c := c + [u];
  }

  lemma EvalNone()
    ensures Eval([]) == 0
  {
  }

  /** A subtraction on 32-bit cells. */
  function Minus(x: nat, y: nat, u: nat): Cell {
    (x - y - u) % 0x1_0000_0000
  }

  function LowDigit(t: nat): Digit {
    t % RADIX
  }

  function TopBit(t: nat): nat {
    t / 0x8000_0000
  }

  /** One column of a subtraction: the borrow is the top bit of the cell. */
  lemma BorrowColumn(x: Digit, y: Digit, u: nat)
    requires u <= 1
    ensures var t := Minus(x, y, u); TopBit(t) <= 1 && x - y - u == LowDigit(t) - RADIX * TopBit(t)
  {
    var v := x - y - u;
    if v >= 0 {
      DivModUnique(v, 0x1_0000_0000, 0, v);
    } else {
      DivModUnique(v, 0x1_0000_0000, -1, v + 0x1_0000_0000);
    }
  }

  /** d at place p. */
  ghost function Place(p: nat, d: nat): nat {
    Power(p) * d
  }

  lemma PlaceFacts(p: nat, u: nat)
    ensures Place(p, 0) == 0 && (u <= 1 ==> Place(p, u) == if u == 1 then Power(p) else 0)
  {
  }

  lemma PrefixPlace(s: seq<Digit>, i: nat)
    requires i < |s|
    ensures Eval(s[..i + 1]) == Eval(s[..i]) + Place(i, s[i])
  {
    hide Eval;
    EvalPrefix(s, i);
  }

  /** A digit of the difference and the borrow it leaves. */
  lemma BorrowStep(c: seq<Digit>, x: Digit, y: Digit, u: nat)
    requires u <= 1
    ensures var t := Minus(x, y, u);
            && TopBit(t) <= 1
            && Eval(c + [LowDigit(t)]) - Place(|c| + 1, TopBit(t))
            == Eval(c) - Place(|c|, u) + Place(|c|, x) - Place(|c|, y)
  {
    hide Eval;
    hide Minus;
    hide TopBit;
    hide LowDigit;
    var t := Minus(x, y, u);
    BorrowColumn(x, y, u);
    EvalAppend(c, LowDigit(t));
    PowerStep(|c|);
    hide Power;
    BorrowValue(Power(|c|), LowDigit(t), TopBit(t), x, y, u);
  }

  lemma BorrowValue(p: int, d: int, v: int, x: int, y: int, u: int)
    requires x - y - u == d - RADIX * v
    ensures p * d - RADIX * p * v == p * x - p * y - p * u
  {
    assert p * (x - y - u) == p * (d - RADIX * v);
    assert p * (x - y - u) == p * x - p * y - p * u;
    assert p * (d - RADIX * v) == p * d - p * (RADIX * v);
  }

  /** s_mp_sub without the clamp. Its comment asks for a no smaller than b; otherwise
      the last borrow is lost and the result is too large by b^|a|. */
  method SubDigits(a: seq<Digit>, b: seq<Digit>) returns (c: seq<Digit>)
    requires |a| >= |b|
    ensures |c| == |a|
    ensures Eval(c) == Eval(a) - Eval(b) + if Eval(a) >= Eval(b) then 0 else Power(|a|)
  {
    hide *;
    var u: Cell := 0;
    var i := 0;
    c := [];
    PlaceFacts(0, 0);
    EvalNone();
    assert a[..0] == [] && b[..0] == [];
    while i < |b|
      invariant i <= |b| && |c| == i && u <= 1
      invariant Eval(c) - Place(i, u) == Eval(a[..i]) - Eval(b[..i])
    {
      var t: Cell := Minus(a[i], b[i], u);
      BorrowStep(c, a[i], b[i], u);
      PrefixPlace(a, i);
      PrefixPlace(b, i);
      c, u, i := c + [LowDigit(t)], TopBit(t), i + 1;
    }
    assert b[..|b|] == b;
    while i < |a|
      invariant |b| <= i <= |a| && |c| == i && u <= 1
      invariant Eval(c) - Place(i, u) == Eval(a[..i]) - Eval(b)
    {
      var t: Cell := Minus(a[i], 0, u);
      BorrowStep(c, a[i], 0, u);
      PlaceFacts(i, 0);
      PrefixPlace(a, i);
      c, u, i := c + [LowDigit(t)], TopBit(t), i + 1;
    }
    assert a[..|a|] == a;
    EvalBound(c);
    EvalBound(b);
    PowerGrows(|b|, |a|);
    PlaceFacts(i, u);
  }

  /** mp_mul_d without the clamp. */
  method MulDigit(a: seq<Digit>, b: Digit) returns (c: seq<Digit>)
    ensures Eval(c) == Eval(a) * b && |c| == |a| + 1
  {
    hide Eval;
    hide Power;
    var u: Digit := 0;
    var ix := 0;
    c := [];
    SmallPowers();
    EvalNone();
    assert a[..0] == [];
    while ix < |a|
      invariant ix <= |a| && |c| == ix
      invariant Eval(c) + Power(ix) * u == Eval(a[..ix]) * b
    {
      ProductFits(a[ix], b, u);
      var r: Word := u + a[ix] * b;
      CarryStep(c, r);
      EvalPrefix(a, ix);
      Distribute3(Power(ix), u, a[ix] * b, 0);
      assert (Eval(a[..ix]) + Power(ix) * a[ix]) * b == Eval(a[..ix]) * b + Power(ix) * (a[ix] * b);
      c, u, ix := c + [r % RADIX], r / RADIX, ix + 1;
    }
    assert a[..|a|] == a;
    EvalAppend(c, u);
    c := c + [u];
  }

  lemma ProductFits(x: Digit, y: Digit, u: Digit)
    ensures u + x * y < 0x1_0000_0000_0000_0000 && (u + x * y) / RADIX < RADIX
  {
    MulMonotone(x, RADIX - 1, y);
    MulMonotone(y, RADIX - 1, RADIX - 1);
    assert x * y <= (RADIX - 1) * (RADIX - 1);
  }

  /** mp_cmp_mag: first by length, then by the highest digit that differs. */
  method CmpDigits(a: seq<Digit>, b: seq<Digit>) returns (r: Order)
    ensures |a| > |b| ==> r == Greater
    ensures |a| < |b| ==> r == Less
    ensures |a| == |b| ==> r == OrderOf(Eval(a), Eval(b))
  {
    hide Eval;
    if |a| > |b| {
      return Greater;
    }
    if |a| < |b| {
      return Less;
    }
    var n := 0;
    while n < |a|
      invariant n <= |a| && a[|a| - n..] == b[|a| - n..]
    {
      var k := |a| - 1 - n;
      if a[k] > b[k] {
        HighestDifference(b, a, k);
        return Greater;
      }
      if a[k] < b[k] {
        HighestDifference(a, b, k);
        return Less;
      }
      assert a[k..] == [a[k]] + a[k + 1..] && b[k..] == [b[k]] + b[k + 1..];
      n := n + 1;
    }
    assert a[0..] == a && b[0..] == b;
    return Equal;
  }

  function OrderOf(x: int, y: int): Order {
    if x < y then Less else if x > y then Greater else Equal
  }

  /** A comparison by length first is right when the longer string is clamped. */
  predicate Comparable(a: seq<Digit>, b: seq<Digit>) {
    (|a| > |b| ==> Clamped(a)) && (|a| < |b| ==> Clamped(b))
  }

  lemma ComparedByLength(a: seq<Digit>, b: seq<Digit>)
    requires Comparable(a, b)
    ensures |a| > |b| ==> Eval(a) > Eval(b)
    ensures |a| < |b| ==> Eval(a) < Eval(b)
  {
    hide Eval;
    if |a| > |b| {
      ShorterIsLess(b, a);
    } else if |a| < |b| {
      ShorterIsLess(a, b);
    }
  }

  /** mp_clamp. */
  method Trim(a: seq<Digit>) returns (c: seq<Digit>)
    ensures |c| <= |a| && c == a[..|c|] && Eval(c) == Eval(a) && Clamped(c)
    ensures forall i :: |c| <= i < |a| ==> a[i] == 0
  {
    hide Eval;
    var used: nat := |a|;
    while used > 0 && a[used - 1] == 0
      invariant used <= |a|
      invariant forall i :: used <= i < |a| ==> a[i] == 0
    {
      used := used - 1;
    }
    c := a[..used];
    EvalPadded(c, a);
  }

  function Zeros(n: nat): (r: seq<Digit>)
    ensures |r| == n
    ensures forall i :: 0 <= i < n ==> r[i] == 0
  {
    seq(n, i => 0)
  }

  lemma EvalShifted(a: seq<Digit>, b: nat)
    ensures Eval(Zeros(b) + a) == Power(b) * Eval(a)
  {
    hide Eval;
    EvalConcat(Zeros(b), a);
    EvalZeros(Zeros(b));
  }
}
