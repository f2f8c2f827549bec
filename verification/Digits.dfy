/** Digit strings in base 2^28, least significant digit first, and the numbers they stand for. */
module Digits {
  import opened Arith

  const RADIX: nat := 0x1000_0000          // 1 << DIGIT_BIT
  const DIGIT_BIT: nat := 28

  type Digit = d: nat | d < RADIX
  type Cell = d: nat | d < 0x1_0000_0000               // mp_digit
  type Word = w: nat | w < 0x1_0000_0000_0000_0000     // mp_word

  function Power(k: nat): (r: nat)
    ensures r > 0
  {
    if k == 0 then 1 else RADIX * Power(k - 1)
  }

  /** The value of a column string; columns may be larger than a digit. */
  function Eval(s: seq<nat>): nat {
    if s == [] then 0 else s[0] + RADIX * Eval(s[1..])
  }

  lemma PowerStep(k: nat)
    ensures Power(k + 1) == RADIX * Power(k)
  {
  }

  lemma {:induction false} PowerAdd(m: nat, n: nat)
    ensures Power(m + n) == Power(m) * Power(n)
  {
    if m > 0 {
      PowerAdd(m - 1, n);
      assert Power(m + n) == RADIX * Power(m - 1 + n);
      assert Power(m) * Power(n) == RADIX * (Power(m - 1) * Power(n));
    }
  }

  lemma PowerGrows(m: nat, n: nat)
    requires m <= n
    ensures Power(m) <= Power(n)
    decreases n
  {
    if m < n {
      PowerGrows(m, n - 1);
    }
  }

  lemma SmallPowers()
    ensures Power(0) == 1 && Power(1) == RADIX && Power(2) == RADIX * RADIX
  {
    assert Power(1) == RADIX * Power(0);
  }

  lemma EvalHead(s: seq<nat>)
    requires s != []
    ensures Eval(s) == s[0] + RADIX * Eval(s[1..])
  {
  }

  lemma {:induction false} EvalConcat(s: seq<nat>, t: seq<nat>)
    ensures Eval(s + t) == Eval(s) + Power(|s|) * Eval(t)
  {
    if s == [] {
      assert s + t == t;
    } else {
      EvalConcat(s[1..], t);
      assert (s + t)[1..] == s[1..] + t;
      assert RADIX * (Power(|s| - 1) * Eval(t)) == Power(|s|) * Eval(t);
    }
  }

  lemma EvalOne(d: nat)
    ensures Eval([d]) == d
  {
    assert Eval([d][1..]) == 0;
  }

  lemma EvalAppend(s: seq<nat>, d: nat)
    ensures Eval(s + [d]) == Eval(s) + Power(|s|) * d
  {
    hide Eval;
    hide Power;
    EvalConcat(s, [d]);
    EvalOne(d);
  }

  /** One more digit of a prefix. */
  lemma EvalPrefix(s: seq<nat>, i: nat)
    requires i < |s|
    ensures Eval(s[..i + 1]) == Eval(s[..i]) + Power(i) * s[i]
  {
    hide Eval;
    hide Power;
    EvalAppend(s[..i], s[i]);
    assert s[..i + 1] == s[..i] + [s[i]];
  }

  lemma EvalSplit(s: seq<nat>, i: nat)
    requires i <= |s|
    ensures Eval(s) == Eval(s[..i]) + Power(i) * Eval(s[i..])
  {
    hide Eval;
    hide Power;
    EvalConcat(s[..i], s[i..]);
    assert s == s[..i] + s[i..];
  }

  lemma EvalUpdate(s: seq<nat>, i: nat, v: nat)
    requires i < |s|
    ensures Eval(s[i := v]) == Eval(s) + Power(i) * (v - s[i])
  {
    hide Eval;
    hide Power;
    var t := s[i := v];
    EvalSplit(s, i + 1);
    EvalSplit(t, i + 1);
    EvalPrefix(s, i);
    EvalPrefix(t, i);
    assert t[..i] == s[..i] && t[i + 1..] == s[i + 1..];
    assert Power(i) * v - Power(i) * s[i] == Power(i) * (v - s[i]);
  }

  lemma {:induction false} EvalBound(s: seq<Digit>)
    ensures Eval(s) < Power(|s|)
  {
    if s != [] {
      EvalBound(s[1..]);
    }
  }

  lemma EvalTop(s: seq<nat>)
    requires s != []
    ensures Eval(s) >= Power(|s| - 1) * s[|s| - 1]
  {
    EvalPrefix(s, |s| - 1);
    assert s[..|s|] == s;
  }

  lemma {:induction false} EvalZeros(s: seq<nat>)
    requires forall i :: 0 <= i < |s| ==> s[i] == 0
    ensures Eval(s) == 0
  {
    if s != [] {
      EvalZeros(s[1..]);
    }
  }

  lemma EvalPadded(s: seq<nat>, t: seq<nat>)
    requires |t| >= |s| && t[..|s|] == s && forall i :: |s| <= i < |t| ==> t[i] == 0
    ensures Eval(t) == Eval(s)
  {
    EvalSplit(t, |s|);
    EvalZeros(t[|s|..]);
  }

  /** No leading zero digit. */
  predicate Clamped(s: seq<nat>) {
    s == [] || s[|s| - 1] != 0
  }

  lemma ClampedBounds(s: seq<Digit>)
    requires Clamped(s) && s != []
    ensures Power(|s| - 1) <= Eval(s) < Power(|s|)
  {
    hide Eval;
    hide Power;
    EvalTop(s);
    EvalBound(s);
    MulMonotone(1, s[|s| - 1], Power(|s| - 1));
  }

  lemma ClampedZero(s: seq<Digit>)
    requires Clamped(s)
    ensures Eval(s) == 0 <==> s == []
  {
    if s != [] {
      ClampedBounds(s);
    }
  }

  /** Clamped strings of different lengths are ordered by length. */
  lemma ShorterIsLess(s: seq<Digit>, t: seq<Digit>)
    requires Clamped(t) && |s| < |t|
    ensures Eval(s) < Eval(t)
  {
    hide Eval;
    hide Power;
    EvalBound(s);
    ClampedBounds(t);
    PowerGrows(|s|, |t| - 1);
  }

  lemma OrderedLengths(s: seq<Digit>, t: seq<Digit>)
    requires Clamped(s) && Clamped(t) && Eval(s) >= Eval(t)
    ensures |s| >= |t|
  {
    hide Eval;
    if |s| < |t| {
      ShorterIsLess(s, t);
    }
  }

  /** Strings of one length are ordered by the highest digit that differs. */
  lemma HighestDifference(s: seq<Digit>, t: seq<Digit>, i: nat)
    requires |s| == |t| && i < |s| && s[i + 1..] == t[i + 1..] && s[i] < t[i]
    ensures Eval(s) < Eval(t)
  {
    hide Eval;
    hide Power;
    EvalSplit(s, i + 1);
    EvalSplit(t, i + 1);
    EvalPrefix(s, i);
    EvalPrefix(t, i);
    EvalBound(s[..i]);
    MulMonotone(s[i] + 1, t[i], Power(i));
    assert (s[i] + 1) * Power(i) == Power(i) * s[i] + Power(i);
  }
}
