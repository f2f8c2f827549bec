/** Shifts of a digit string by whole digits and by bits, and its length in bits. */
module BitShifts {
  import opened Arith
  import opened Digits
  import opened DigitLoops
  import opened Bits

  lemma {:induction false} Pow2Add(m: nat, n: nat)
    ensures Pow2(m + n) == Pow2(m) * Pow2(n)
  {
    if m > 0 {
      Pow2Add(m - 1, n);
      assert Pow2(m) * Pow2(n) == 2 * (Pow2(m - 1) * Pow2(n));
    }
  }

  lemma Pow2Digit()
    ensures Pow2(28) == RADIX
  {
    PowByte();
    Pow2Add(8, 8);
    Pow2Add(16, 8);
    assert Pow2(4) == 16;
    Pow2Add(24, 4);
  }

  lemma {:induction false} PowerIsPow2(k: nat)
    ensures Power(k) == Pow2(28 * k)
  {
    hide Pow2;
    if k == 0 {
      Pow2Zero();
    } else {
      PowerIsPow2(k - 1);
      Pow2Digit();
      Pow2Add(28, 28 * (k - 1));
    }
  }

  lemma Pow2Zero()
    ensures Pow2(0) == 1
  {
  }

  /** The bits a digit loses when it moves up are the carry of the product. */
  lemma HighBits(d: Digit, k: nat, r: nat)
    requires k <= 28 && r < Pow2(k)
    ensures d / Pow2(28 - k) == (d * Pow2(k) + r) / RADIX
    ensures d / Pow2(28 - k) < Pow2(k)
  {
    hide Pow2;
    Pow2Add(28 - k, k);
    Pow2Digit();
    var p, s := Pow2(k), Pow2(28 - k);
    var q, m := d / s, d % s;
    assert d == q * s + m;
    MulMonotone(m, s - 1, p);
    assert d * p + r == q * RADIX + (m * p + r) by {
      assert (q * s + m) * p == q * (s * p) + m * p;
    }
    assert (s - 1) * p == RADIX - p;
    DivModUnique(d * p + r, RADIX, q, m * p + r);
    if q >= p {
      MulMonotone(p, q, s);
    }
  }

  /** The bit loop of mp_mul_2d. */
  method ShiftUpDigits(a: seq<Digit>, k: nat) returns (c: seq<Digit>)
    requires k < 28
    ensures Eval(c) == Eval(a) * Pow2(k)
    ensures |a| <= |c| <= |a| + 1 && (|c| > |a| ==> c[|a|] != 0)
  {
    hide Eval;
    hide Power;
    hide Pow2;
    ghost var p := Pow2(k);
    var r: nat := 0;
    var x := 0;
    c := [];
    SmallPowers();
    EvalNone();
    assert a[..0] == [];
    while x < |a|
      invariant x <= |a| && |c| == x && r < p
      invariant Eval(c) + Power(x) * r == Eval(a[..x]) * p
    {
      HighBits(a[x], k, r);
      var t := a[x] * Pow2(k) + r;
      var rr := a[x] / Pow2(28 - k);
      CarryStep(c, t);
      EvalPrefix(a, x);
      ShiftColumn(Power(x), Eval(a[..x]), a[x], p, r);
      c, r, x := c + [t % RADIX], rr, x + 1;
    }
    assert a[..|a|] == a;
    if r != 0 {
      Pow2Below(k);
      EvalAppend(c, r);
      c := c + [r];
    }
  }

  lemma ShiftColumn(w: int, e: int, d: int, p: int, r: int)
    ensures (e + w * d) * p + w * r == e * p + w * (d * p + r)
  {
    assert (e + w * d) * p == e * p + w * d * p;
    assert w * (d * p + r) == w * (d * p) + w * r;
  }

  lemma Pow2Below(k: nat)
    requires k < 28
    ensures Pow2(k) < RADIX
  {
    hide Pow2;
    Pow2Digit();
    Pow2Add(k, 28 - k);
    Pow2Doubles(28 - k - 1);
    MulMonotone(2, Pow2(28 - k), Pow2(k));
  }

  lemma Pow2Doubles(k: nat)
    ensures Pow2(k + 1) == 2 * Pow2(k)
  {
  }

  /** The bits that fall out of a digit, and the digit they make room in. */
  function LostBits(d: nat, k: nat): nat {
    d % Pow2(k)
  }

  function ShiftedDigit(d: nat, r: nat, k: nat): int
    requires k <= 28
  {
    d / Pow2(k) + r * Pow2(28 - k)
  }

  /** One digit of a right shift: what falls out of it enters the next one. */
  lemma ShiftDownColumn(d: Digit, r: nat, k: nat)
    requires 0 < k < 28 && r < Pow2(k)
    ensures var v := ShiftedDigit(d, r, k);
            0 <= v < RADIX && d + RADIX * r == v * Pow2(k) + LostBits(d, k) && LostBits(d, k) < Pow2(k)
  {
    hide Pow2;
    Pow2Add(28 - k, k);
    Pow2Digit();
    ShiftedValue(d, r, Pow2(k), Pow2(28 - k), d / Pow2(k), d % Pow2(k));
  }

  lemma ShiftedValue(d: Digit, r: nat, p: nat, s: nat, q: int, m: nat)
    requires d == q * p + m && m < p && r < p && s * p == RADIX
    ensures 0 <= q + r * s < RADIX && d + RADIX * r == (q + r * s) * p + m
  {
    if q >= s {
      MulMonotone(s, q, p);
    } else if q < 0 {
      MulMonotone(q, -1, p);
    }
    MulMonotone(r, p - 1, s);
    assert (p - 1) * s == RADIX - s;
    assert (q + r * s) * p == q * p + r * (s * p);
  }

  lemma ShiftDownStep(d: int, v: int, r: int, rr: int, p: int, c: int, e: int)
    requires e == c * p + r && d + RADIX * r == v * p + rr
    ensures d + RADIX * e == (v + RADIX * c) * p + rr
  {
    assert (v + RADIX * c) * p == v * p + RADIX * (c * p);
  }

  /** The bit loop of mp_div_2d. */
  method ShiftDownDigits(a: seq<Digit>, k: nat) returns (c: seq<Digit>)
    requires 0 < k < 28
    ensures |c| == |a| && Eval(c) == Eval(a) / Pow2(k)
  {
    hide *;
    ghost var p := Pow2(k);
    var r: nat := 0;
    var x: nat := |a|;
    c := [];
    EvalNone();
    assert a[|a|..] == [];
    while x > 0
      invariant x <= |a| && |c| == |a| - x && r < p
      invariant Eval(a[x..]) == Eval(c) * p + r
    {
      x := x - 1;
      var rr := LostBits(a[x], k);
      ShiftDownColumn(a[x], r, k);
      var v: Digit := ShiftedDigit(a[x], r, k);
      EvalCons(v, c);
      EvalCons(a[x], a[x + 1..]);
      assert a[x..] == [a[x]] + a[x + 1..];
      ShiftDownStep(a[x], v, r, rr, p, Eval(c), Eval(a[x + 1..]));
      c, r := [v] + c, rr;
    }
    assert a[0..] == a;
    DivModUnique(Eval(a), p, Eval(c), r);
  }

  lemma EvalCons(d: nat, s: seq<nat>)
    ensures Eval([d] + s) == d + RADIX * Eval(s)
  {
    assert ([d] + s)[1..] == s;
  }

  /** How many bits of a digit are in use. */
  method DigitLength(d: Digit) returns (r: nat)
    ensures d < Pow2(r) && (r > 0 ==> Pow2(r - 1) <= d) && r <= 28 && (d > 0 ==> r > 0)
  {
    r := 0;
    var q := d;
    Pow2Zero();
    while q > 0
      invariant d / Pow2(r) == q && r <= 28
      invariant r > 0 ==> Pow2(r - 1) <= d
      decreases q
    {
      hide Pow2;
      DigitStep(d, r, q);
      r, q := r + 1, q / 2;
    }
    if d >= Pow2(r) {
      DivAtLeast(d, Pow2(r));
    }
  }

  lemma DivAtLeast(d: nat, m: nat)
    requires m > 0 && d >= m
    ensures d / m >= 1
  {
  }

  lemma DigitStep(d: Digit, r: nat, q: nat)
    requires q > 0 && d / Pow2(r) == q && r <= 28
    ensures d / Pow2(r + 1) == q / 2 && r < 28 && Pow2(r) <= d
  {
    hide Pow2;
    var p := Pow2(r);
    Pow2Doubles(r);
    assert d == q * p + d % p;
    MulMonotone(1, q, p);
    if r == 28 {
      Pow2Digit();
    }
    assert q == 2 * (q / 2) + q % 2;
    var m := q % 2 * p + d % p;
    assert d == q / 2 * (2 * p) + m by {
      assert (2 * (q / 2) + q % 2) * p == q / 2 * (2 * p) + q % 2 * p;
    }
    assert m < 2 * p;
    DivModUnique(d, 2 * p, q / 2, m);
  }

  /** v has exactly n bits. */
  ghost predicate HasBits(v: nat, n: nat) {
    v < Pow2(n) && (n > 0 ==> Pow2(n - 1) <= v)
  }

  /** mp_count_bits. */
  method CountBits(a: seq<Digit>) returns (r: nat)
    requires Clamped(a)
    ensures HasBits(Eval(a), r)
    ensures a != [] ==> 28 * (|a| - 1) < r <= 28 * |a|
    ensures a == [] ==> r == 0
    ensures a != [] ==> HasBits(a[|a| - 1], r - 28 * (|a| - 1))
  {
    hide Eval;
    hide Power;
    Pow2Zero();
    EvalNone();
    hide Pow2;
    if |a| == 0 {
      return 0;
    }
    var n := DigitLength(a[|a| - 1]);
    r := (|a| - 1) * DIGIT_BIT + n;
    BitsOfNumber(a, n);
  }

  lemma BitsOfNumber(a: seq<Digit>, n: nat)
    requires a != [] && n > 0 && HasBits(a[|a| - 1], n)
    ensures HasBits(Eval(a), 28 * (|a| - 1) + n)
  {
    hide Eval;
    hide Pow2;
    hide Power;
    var m := |a| - 1;
    EvalPrefix(a, m);
    assert a[..m + 1] == a;
    EvalBound(a[..m]);
    PowerIsPow2(m);
    Pow2Add(28 * m, n);
    Pow2Add(28 * m, n - 1);
    var w, top: nat := Power(m), a[m];
    MulMonotone(top + 1, Pow2(n), w);
    MulMonotone(Pow2(n - 1), top, w);
    assert (top + 1) * w == w * top + w;
  }

  lemma BitsAreUnique(v: nat, m: nat, n: nat)
    requires HasBits(v, m) && HasBits(v, n)
    ensures m == n
  {
    hide Pow2;
    Pow2Zero();
    if m < n {
      Pow2Monotone(m, n - 1);
    } else if n < m {
      Pow2Monotone(n, m - 1);
    }
  }
}
