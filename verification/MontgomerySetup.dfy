/** The constants Montgomery reduction needs: -1 / n mod b, and R mod n. */
module MontgomerySetup {
  import opened Arith
  import opened Digits
  import opened DigitLoops
  import opened BitShifts
  import opened Bits
  import opened BigInt
  import opened SmallFactors
  import opened Congruence
  import opened Montgomery

  const CELL: nat := 0x1_0000_0000

  /** Arithmetic of mp_digit variables wraps. */
  function Wrap(v: int): Cell {
    v % 0x1_0000_0000
  }

  /** b * x is 1 modulo m. */
  ghost predicate InverseModulo(b: int, x: int, m: int) {
    Congruent(b * x, 1, m)
  }

  /** The starting value is right in the last four bits: all eight odd residues. */
  lemma FourBitInverse(b: nat)
    requires b % 2 == 1
    ensures InverseModulo(b, (b + 2) / 4 % 2 * 8 + b, 16)
  {
    var q, r := b / 16, b % 16;
    var s := OddResidue(r);
    var y := Start(r);
    StartOf(q, r);
    InverseValue(q, r, y, s);
    CongruentBy(b * Start(b), 1, 16, s + q * y + q * r + 16 * q * q);
  }

  function Start(b: nat): nat {
    (b + 2) / 4 % 2 * 8 + b
  }

  lemma StartOf(q: nat, r: nat)
    ensures Start(16 * q + r) == Start(r) + 16 * q
  {
    var z := (r + 2) / 4;
    DivModUnique(16 * q + r + 2, 4, 4 * q + z, (r + 2) % 4);
    ModAddMultiple(z, 2 * q, 2);
  }

  lemma OddResidue(r: nat) returns (s: nat)
    requires r < 16 && r % 2 == 1
    ensures r * Start(r) == 16 * s + 1
  {
    s := match r
      case 1 => 0
      case 3 => 2
      case 5 => 4
      case 7 => 3
      case 9 => 5
      case 11 => 13
      case 13 => 17
      case _ => 14;
  }

  lemma InverseValue(q: int, r: int, y: int, s: int)
    requires r * y == 16 * s + 1
    ensures (16 * q + r) * (y + 16 * q) == 1 + (s + q * y + q * r + 16 * q * q) * 16
  {
    assert (16 * q + r) * (y + 16 * q) == 16 * (q * y) + 16 * q * (16 * q) + r * y + 16 * (q * r);
  }

  /** x * (2 - b * x) is right in twice as many bits, and wrapping at 32 bits loses none of them. */
  lemma HenselStep(b: int, x: int, m: int, k: int)
    requires InverseModulo(b, x, m) && m > 0 && k * (m * m) == CELL
    ensures InverseModulo(b, Wrap(x * Wrap(2 - b * x)), m * m)
  {
    var n := m * m;
    var q := Witness(b * x, 1, m);
    var inner, outer := Wrap(2 - b * x), Wrap(x * Wrap(2 - b * x));
    WrapIsCongruent(2 - b * x, n, k);
    WrapIsCongruent(x * inner, n, k);
    Reflexive(x, n);
    Reflexive(b, n);
    Product(x, x, inner, 2 - b * x, n);
    Transitive(outer, x * inner, x * (2 - b * x), n);
    Product(b, b, outer, x * (2 - b * x), n);
    HenselValue(b, x, q, m);
    CongruentBy(b * (x * (2 - b * x)), 1, n, -(q * q));
    Transitive(b * outer, b * (x * (2 - b * x)), 1, n);
  }

  lemma HenselValue(b: int, x: int, q: int, m: int)
    requires b * x == 1 + q * m
    ensures b * (x * (2 - b * x)) == 1 + -(q * q) * (m * m)
  {
    var e := q * m;
    assert b * (x * (2 - b * x)) == b * x * (2 - b * x);
    assert (1 + e) * (1 - e) == 1 - e * e;
    assert e * e == q * q * (m * m);
  }

  lemma WrapIsCongruent(v: int, n: int, k: int)
    requires k * n == CELL
    ensures Congruent(Wrap(v), v, n)
  {
    var q := v / CELL;
    assert v == q * CELL + v % CELL;
    assert q * (k * n) == q * k * n;
    assert (-(q * k)) * n == -(q * k * n);
    CongruentBy(Wrap(v), v, n, -(q * k));
  }

  lemma SmallerModulus(x: int, y: int, n: int, k: int)
    requires Congruent(x, y, k * n)
    ensures Congruent(x, y, n)
  {
    var q := Witness(x, y, k * n);
    assert q * (k * n) == q * k * n;
    CongruentBy(x, y, n, q * k);
  }

  lemma RhoFromInverse(b: int, x: int)
    requires InverseModulo(b, x, CELL)
    ensures ((RADIX - x) % RADIX * b + 1) % RADIX == 0
  {
    SmallerModulus(b * x, 1, RADIX, 16);
    var q := Witness(b * x, 1, RADIX);
    var r, p := (RADIX - x) % RADIX, (RADIX - x) / RADIX;
    assert r == RADIX - x - p * RADIX;
    assert r * b + 1 == (b - p * b - q) * RADIX by {
      assert (RADIX - x - p * RADIX) * b == RADIX * b - x * b - p * b * RADIX;
    }
    ModMultiple(b - p * b - q, RADIX);
  }

  /** mp_montgomery_setup: fails for an even modulus only. */
  method Setup(n: MpInt) returns (ok: bool, rho: Digit)
    ensures ok <==> n.dp != [] && n.dp[0] % 2 == 1
    ensures ok ==> IsRho(rho, n.dp)
  {
    hide Wrap;
    hide InverseModulo;
    var b: Cell := if |n.dp| > 0 then n.dp[0] else 0;
    if b % 2 == 0 {
      return false, 0;
    }
    FourBitInverse(b);
    var x: Cell := (b + 2) / 4 % 2 * 8 + b;
    HenselStep(b, x, 16, 0x100_0000);
    x := Wrap(x * Wrap(2 - b * x));
    HenselStep(b, x, 256, 0x1_0000);
    x := Wrap(x * Wrap(2 - b * x));
    HenselStep(b, x, 65536, 1);
    x := Wrap(x * Wrap(2 - b * x));
    RhoFromInverse(b, x);
    rho := (RADIX - x) % RADIX;
    ok := true;
  }

  // ------------------------------------------------------------------- R mod n

  ghost predicate IsPowerOfTwo(v: nat) {
    exists j: nat :: v == Pow2(j)
  }

  /** The moduli the normalisation gets wrong: 1, and the powers of two of more than one
      digit whose leading digit is not the single top bit. */
  ghost predicate Stuck(n: seq<Digit>) {
    Eval(n) == 1 || (|n| > 1 && n[|n| - 1] < 0x800_0000 && IsPowerOfTwo(Eval(n)))
  }

  lemma PowerBits(v: nat, bits: nat)
    requires HasBits(v, bits) && bits > 0
    ensures IsPowerOfTwo(v) <==> v == Pow2(bits - 1)
  {
    if IsPowerOfTwo(v) {
      var j: nat :| v == Pow2(j);
      PowerHasBits(j);
      BitsAreUnique(v, j + 1, bits);
    }
  }

  lemma PowerHasBits(j: nat)
    ensures HasBits(Pow2(j), j + 1)
  {
    Pow2Doubles(j);
  }

  lemma {:induction false} Pow2Strict(m: nat, n: nat)
    requires m < n
    ensures Pow2(m) < Pow2(n)
    decreases n
  {
    if m < n - 1 {
      Pow2Strict(m, n - 1);
    }
  }

  /** The top digit has its top bit exactly when the bit count is a multiple of 28. */
  lemma TopBitSet(n: seq<Digit>, bits: nat)
    requires n != [] && 28 * (|n| - 1) < bits <= 28 * |n| && HasBits(n[|n| - 1], bits - 28 * (|n| - 1))
    ensures bits % 28 == 0 <==> n[|n| - 1] >= 0x800_0000
  {
    hide Pow2;
    var b := bits - 28 * (|n| - 1);
    Pow2Digit();
    Pow2Doubles(27);
    if b <= 27 {
      Pow2Monotone(b, 27);
    }
  }

  /** Where the doubling starts: below n, or at n if n is a power of two. */
  lemma FirstPower(n: seq<Digit>, bits: nat)
    requires |n| > 1 && Clamped(n) && HasBits(Eval(n), bits)
    requires 28 * (|n| - 1) < bits <= 28 * |n| && HasBits(n[|n| - 1], bits - 28 * (|n| - 1))
    ensures var e := 28 * (|n| - 1) + bits % 28 - 1;
            e >= 0 && if Stuck(n) then Pow2(e) == Eval(n) else Pow2(e) < Eval(n)
  {
    hide Eval;
    hide Pow2;
    var e := 28 * (|n| - 1) + bits % 28 - 1;
    TopBitSet(n, bits);
    PowerBits(Eval(n), bits);
    Pow2Zero();
    if bits % 28 == 0 {
      Pow2Strict(e, bits - 1);
      Pow2Strict(0, bits - 1);
    } else {
      Pow2Strict(0, bits - 1);
    }
  }

  /** a is 2^e mod n, or stays at n. */
  ghost predicate Doubling(a: nat, e: nat, n: nat, stuck: bool) {
    if stuck then a == n else a < n && Congruent(a, Pow2(e), n)
  }

  lemma DoubleStep(a: nat, e: nat, n: nat, stuck: bool)
    requires Doubling(a, e, n, stuck) && n > 0
    ensures Doubling(if 2 * a >= n then 2 * a - n else 2 * a, e + 1, n, stuck)
  {
    hide Congruent;
    Pow2Doubles(e);
    hide Pow2;
    if !stuck {
      Reflexive(2, n);
      Product(2, 2, a, Pow2(e), n);
      if 2 * a >= n {
        CongruentBy(2 * a - n, 2 * a, n, -1);
        Transitive(2 * a - n, 2 * a, Pow2(e + 1), n);
      }
    }
  }

  lemma DoublingStarts(a: nat, e: nat, n: nat, stuck: bool)
    requires a == Pow2(e) && if stuck then a == n else a < n
    ensures Doubling(a, e, n, stuck)
  {
    Reflexive(a, n);
  }

  /** The end of the doubling, at R = 2^(28 k). */
  lemma DoublingEnds(a: nat, k: nat, n: seq<Digit>)
    requires |n| == k && Clamped(n) && n != [] && Doubling(a, 28 * k, Eval(n), Stuck(n))
    ensures a == Power(k) % Eval(n) <==> !Stuck(n)
    ensures Stuck(n) ==> a == Eval(n)
  {
    hide Eval;
    ClampedBounds(n);
    PowerIsPow2(k);
    hide Power;
    hide Pow2;
    if !Stuck(n) {
      Symmetric(a, Pow2(28 * k), Eval(n));
      IsRemainder(Power(k), a, Eval(n));
    } else {
      assert Power(k) % Eval(n) < Eval(n);
    }
  }

  /** mp_montgomery_calc_normalization: R mod n, except that it gives n itself for the
      moduli where the doubling is stuck. */
  method CalcNormalization(a: MpInt, b: MpInt)
    requires a != b && b.Normal() && b.Mag() > 0 && !b.neg
    modifies a
    ensures a.Normal() && !a.neg
    ensures a.Mag() == Power(|b.dp|) % b.Mag() <==> !Stuck(b.dp)
    ensures Stuck(b.dp) ==> a.Mag() == b.Mag()
  {
    hide Eval;
    hide Power;
    hide Stuck;
    Pow2Zero();
    hide Pow2;
    hide Doubling;
    ghost var stuck := Stuck(b.dp);
    var count := CountBits(b.dp);
    var bits := count % DIGIT_BIT;
    ClampedZero(b.dp);
    if |b.dp| > 1 {
      FirstPower(b.dp, count);
      a.TwoExpt((|b.dp| - 1) * DIGIT_BIT + bits - 1);
      DoublingStarts(a.Mag(), (|b.dp| - 1) * DIGIT_BIT + bits - 1, b.Mag(), stuck);
    } else {
      OneDigitStuck(b.dp);
      a.Set(1);
      bits := 1;
      DoublingStarts(1, 0, b.Mag(), stuck);
    }
    var x: int := bits - 1;
    while x < DIGIT_BIT
      invariant -1 <= x <= DIGIT_BIT && a.Normal() && !a.neg && 28 * (|b.dp| - 1) + x >= 0
      invariant Doubling(a.Mag(), 28 * (|b.dp| - 1) + x, b.Mag(), stuck)
    {
      DoubleStep(a.Mag(), 28 * (|b.dp| - 1) + x, b.Mag(), stuck);
      DoubleReduce(a, b);
      x := x + 1;
    }
    DoublingEnds(a.Mag(), |b.dp|, b.dp);
  }

  lemma OneDigitStuck(n: seq<Digit>)
    requires |n| == 1 && Clamped(n)
    ensures if Stuck(n) then Eval(n) == 1 else Eval(n) > 1
  {
    EvalOne(n[0]);
    assert n == [n[0]];
  }

  method DoubleReduce(a: MpInt, b: MpInt)
    requires a != b && a.Normal() && b.Normal() && !a.neg
    modifies a
    ensures a.Normal() && !a.neg
    ensures a.Mag() == if 2 * old(a.Mag()) >= b.Mag() then 2 * old(a.Mag()) - b.Mag() else 2 * old(a.Mag())
  {
    hide Eval;
    Mul2(a, a);
    var r := MpInt.CmpMag(a, b);
    if r != Less {
      OrderedLengths(a.dp, b.dp);
      a.SSub(a, b);
    }
  }
}
