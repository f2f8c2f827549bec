/** Bits of bytes and of the 32-bit words the stream code slides them through. */
module Bits {
  import opened Arith

  /** Bit k of a byte. */
  predicate Bit(b: bv8, k: nat) {
    match k
    case 0 => b & 1 != 0
    case 1 => b & 2 != 0
    case 2 => b & 4 != 0
    case 3 => b & 8 != 0
    case 4 => b & 16 != 0
    case 5 => b & 32 != 0
    case 6 => b & 64 != 0
    case 7 => b & 128 != 0
    case _ => false
  }

  /** The bits of a byte, lowest first. */
  function BitsOf(b: bv8): (r: seq<bool>)
    ensures |r| == 8
  {
    seq(8, k requires 0 <= k => Bit(b, k))
  }

  function ToByte(w: bv32): bv8 {
    (w & 0xFF) as bv8
  }

  /** The k low bits set: (1 << k) - 1. */
  function LowMask(k: nat): bv32
    requires k <= 8
  {
    ((1 as bv32) << k) - 1
  }

  /** The u bits waiting at the bottom of a slider that holds no others. */
  function Waiting(slider: bv32, u: nat): (r: seq<bool>)
    requires u <= 8
    ensures |r| == u
  {
    BitsOf(ToByte(slider))[..u]
  }

  lemma LowMaskBits(k: nat, j: nat)
    requires k <= 8 && j < 8
    ensures Bit(ToByte(LowMask(k)), j) <==> j < k
  {
    match k
    case 0 => case 1 => case 2 => case 3 => case 4 => case 5 => case 6 => case 7 => case 8 =>
  }

  lemma MergeBits(low: bv8, high: bv8, mask: bv8, j: nat)
    requires j < 8
    ensures Bit((low & mask) | (high & !mask), j) == if Bit(mask, j) then Bit(low, j) else Bit(high, j)
  {
    match j
    case 0 => case 1 => case 2 => case 3 => case 4 => case 5 => case 6 => case 7 =>
  }

  lemma SlideBits(slider: bv32, b: bv8, u: nat, j: nat)
    requires 0 < u < 8 && j < 8 && slider <= LowMask(u)
    ensures var t := slider | (b as bv32 << u);
            && Bit(ToByte(t), j) == (if j < u then Bit(ToByte(slider), j) else Bit(b, j - u))
            && t >> 8 <= LowMask(u)
            && (j < u ==> Bit(ToByte(t >> 8), j) == Bit(b, 8 - u + j))
  {
    match u
    case 1 => case 2 => case 3 => case 4 => case 5 => case 6 => case 7 =>
  }

  lemma ShiftUpBits(b: bv8, u: nat, j: nat)
    requires 0 < u < 8 && j < 8
    ensures Bit(ToByte(b as bv32 << u), j) == (j >= u && Bit(b, j - u))
  {
    match u
    case 1 => case 2 => case 3 => case 4 => case 5 => case 6 => case 7 =>
  }

  lemma ShiftDownBits(b: bv8, u: nat, j: nat)
    requires 0 < u < 8 && j < 8
    ensures (b as bv32 >> (8 - u)) <= LowMask(u)
    ensures Bit(ToByte(b as bv32 >> (8 - u)), j) == (j < u && Bit(b, 8 - u + j))
  {
    match u
    case 1 => case 2 => case 3 => case 4 => case 5 => case 6 => case 7 =>
  }

  /** A mask of c bits moved up by i covers bits i to i + c - 1. */
  lemma MidMaskBits(c: nat, i: nat, j: nat)
    requires c <= 8 && 0 < i < 8 && j < 8
    ensures Bit(MidMask(c, i), j) <==> i <= j < i + c
  {
    LowMaskIsByte(c);
    ShiftUpBits(ToByte(LowMask(c)), i, j);
    if j >= i {
      LowMaskBits(c, j - i);
    }
  }

  lemma LowMaskIsByte(c: nat)
    requires c <= 8
    ensures ToByte(LowMask(c)) as bv32 == LowMask(c)
  {
    match c
    case 0 => case 1 => case 2 => case 3 => case 4 => case 5 => case 6 => case 7 => case 8 =>
  }

  /** A byte with no bit from u on, as a number. */
  lemma SmallByte(b: bv8, u: nat)
    requires 0 < u < 8 && forall j :: u <= j < 8 ==> !BitsOf(b)[j]
    ensures b as bv32 <= LowMask(u)
  {
    assert forall j :: u <= j < 8 ==> !Bit(b, j) by {
      forall j | u <= j < 8 ensures !Bit(b, j) { assert !BitsOf(b)[j]; }
    }
    assert !Bit(b, 7);
    match u
    case 1 => assert !Bit(b, 1) && !Bit(b, 2) && !Bit(b, 3) && !Bit(b, 4) && !Bit(b, 5) && !Bit(b, 6);
    case 2 => assert !Bit(b, 2) && !Bit(b, 3) && !Bit(b, 4) && !Bit(b, 5) && !Bit(b, 6);
    case 3 => assert !Bit(b, 3) && !Bit(b, 4) && !Bit(b, 5) && !Bit(b, 6);
    case 4 => assert !Bit(b, 4) && !Bit(b, 5) && !Bit(b, 6);
    case 5 => assert !Bit(b, 5) && !Bit(b, 6);
    case 6 => assert !Bit(b, 6);
    case 7 =>
  }

  lemma ByteOfWord(b: bv8)
    ensures ToByte(b as bv32) == b
  {
  }

  // The same facts about whole bytes.

  /** A byte with these bits is the byte with these bits. */
  lemma BitsAre(b: bv8, v: seq<bool>)
    requires |v| == 8 && forall j :: 0 <= j < 8 ==> v[j] == Bit(b, j)
    ensures BitsOf(b) == v
  {
  }

  /** Taking the low k bits from one byte and the rest from another. */
  lemma MergeLow(low: bv8, high: bv8, k: nat)
    requires k <= 8
    ensures var mask := ToByte(LowMask(k));
            BitsOf((low & mask) | (high & !mask)) == BitsOf(low)[..k] + BitsOf(high)[k..]
  {
    var mask := ToByte(LowMask(k));
    var w := (low & mask) | (high & !mask);
    var v := BitsOf(low)[..k] + BitsOf(high)[k..];
    forall j | 0 <= j < 8
      ensures v[j] == Bit(w, j)
    {
      LowMaskBits(k, j);
      MergeBits(low, high, mask, j);
      assert v[j] == if j < k then BitsOf(low)[j] else BitsOf(high)[j];
    }
    BitsAre(w, v);
  }

  /** One round of the sliding copy: u bits wait, a byte is put above them, eight
      bits leave ... */
  lemma SlideOut(slider: bv32, b: bv8, u: nat)
    requires 0 < u < 8 && slider <= LowMask(u)
    ensures BitsOf(ToByte(slider | (b as bv32 << u))) == Waiting(slider, u) + BitsOf(b)[..8 - u]
  {
    var t := ToByte(slider | (b as bv32 << u));
    var v := Waiting(slider, u) + BitsOf(b)[..8 - u];
    forall j | 0 <= j < 8
      ensures v[j] == Bit(t, j)
    {
      SlideBits(slider, b, u, j);
    }
    BitsAre(t, v);
  }

  /** ... and the byte's top u bits wait. */
  lemma SlideOn(slider: bv32, b: bv8, u: nat)
    requires 0 < u < 8 && slider <= LowMask(u)
    ensures var t := (slider | (b as bv32 << u)) >> 8;
            t <= LowMask(u) && Waiting(t, u) == BitsOf(b)[8 - u..]
  {
    var t := (slider | (b as bv32 << u)) >> 8;
    SlideBits(slider, b, u, 0);
    var v := BitsOf(b)[8 - u..];
    forall j | 0 <= j < u
      ensures v[j] == Bit(ToByte(t), j)
    {
      SlideBits(slider, b, u, j);
    }
  }

  /** Moving a byte up by u: its low bits appear above bit u. */
  lemma ShiftUp(b: bv8, u: nat)
    requires 0 < u < 8
    ensures BitsOf(ToByte(b as bv32 << u))[u..] == BitsOf(b)[..8 - u]
  {
    var v := BitsOf(b)[..8 - u];
    forall j | 0 <= j < 8 - u
      ensures v[j] == Bit(ToByte(b as bv32 << u), j + u)
    {
      ShiftUpBits(b, u, j + u);
    }
  }

  lemma ShiftUpFrom(b: bv8, u: nat, i: nat)
    requires 0 < u <= i < 8
    ensures BitsOf(ToByte(b as bv32 << u))[i..] == BitsOf(b)[i - u..8 - u]
  {
    ShiftUp(b, u);
    var v := BitsOf(ToByte(b as bv32 << u));
    assert v[i..] == v[u..][i - u..];
    assert BitsOf(b)[i - u..8 - u] == BitsOf(b)[..8 - u][i - u..];
  }

  /** The top u bits of a byte, moved down to wait. */
  lemma ShiftDown(b: bv8, u: nat)
    requires 0 < u < 8
    ensures (b as bv32 >> (8 - u)) <= LowMask(u)
    ensures Waiting(b as bv32 >> (8 - u), u) == BitsOf(b)[8 - u..]
    ensures var t := BitsOf(ToByte(b as bv32 >> (8 - u))); forall j :: u <= j < 8 ==> !t[j]
  {
    var t := BitsOf(ToByte(b as bv32 >> (8 - u)));
    var v := BitsOf(b)[8 - u..];
    ShiftDownBits(b, u, 0);
    forall j | 0 <= j < 8
      ensures t[j] == (j < u && v[j])
    {
      ShiftDownBits(b, u, j);
    }
  }

  /** c bits set from bit i on: ((1 << c) - 1) << i, cut to a byte. */
  function MidMask(c: nat, i: nat): bv8
    requires c <= 8 && i < 8
  {
    ToByte(LowMask(c) << i)
  }

  /** (low & ~mask) | (mid & mask). */
  function Select(low: bv8, mid: bv8, mask: bv8): bv8 {
    (low & !mask) | (mid & mask)
  }

  lemma SelectBits(low: bv8, mid: bv8, mask: bv8, j: nat)
    requires j < 8
    ensures Bit(Select(low, mid, mask), j) == if Bit(mask, j) then Bit(mid, j) else Bit(low, j)
  {
    match j
    case 0 => case 1 => case 2 => case 3 => case 4 => case 5 => case 6 => case 7 =>
  }

  lemma MiddleByte(low: bv8, mid: bv8, i: nat, c: nat, w: bv8)
    requires i + c <= 8
    requires forall j :: 0 <= j < 8 ==> Bit(w, j) == if i <= j < i + c then Bit(mid, j) else Bit(low, j)
    ensures BitsOf(w) == BitsOf(low)[..i] + BitsOf(mid)[i..i + c] + BitsOf(low)[i + c..]
  {
    hide Bit;
    var v := BitsOf(low)[..i] + BitsOf(mid)[i..i + c] + BitsOf(low)[i + c..];
    forall j | 0 <= j < 8
      ensures v[j] == Bit(w, j)
    {
      MiddleIndex(BitsOf(low), BitsOf(mid), i, c, j);
    }
    BitsAre(w, v);
  }

  /** Taking c bits from bit i on from one byte and the rest from another. */
  lemma MergeMiddle(low: bv8, mid: bv8, i: nat, c: nat)
    requires 0 < i < 8 && i + c <= 8
    ensures BitsOf(Select(low, mid, MidMask(c, i)))
         == BitsOf(low)[..i] + BitsOf(mid)[i..i + c] + BitsOf(low)[i + c..]
  {
    hide *;
    var mask := MidMask(c, i);
    forall j | 0 <= j < 8
      ensures Bit(Select(low, mid, mask), j) == if i <= j < i + c then Bit(mid, j) else Bit(low, j)
    {
      MidMaskBits(c, i, j);
      SelectBits(low, mid, mask, j);
    }
    MiddleByte(low, mid, i, c, Select(low, mid, mask));
  }

  lemma MiddleIndex(low: seq<bool>, mid: seq<bool>, i: nat, c: nat, j: nat)
    requires |low| == |mid| == 8 && i + c <= 8 && j < 8
    ensures (low[..i] + mid[i..i + c] + low[i + c..])[j] == if i <= j < i + c then mid[j] else low[j]
  {
  }

  /** All bits of a buffer, in stream order. */
  function View(bytes: seq<bv8>): (r: seq<bool>)
    ensures |r| == 8 * |bytes|
  {
    seq(8 * |bytes|, k requires 0 <= k < 8 * |bytes| => BitsOf(bytes[k / 8])[k % 8])
  }

  lemma ViewByte(bytes: seq<bv8>, n: nat)
    requires n < |bytes|
    ensures View(bytes)[8 * n..8 * n + 8] == BitsOf(bytes[n])
  {
  }

  lemma ViewUpdate(bytes: seq<bv8>, n: nat, v: bv8)
    requires n < |bytes|
    ensures View(bytes[n := v]) == View(bytes)[..8 * n] + BitsOf(v) + View(bytes)[8 * n + 8..]
  {
  }

  // ------------------------------------------------- integers as bit strings

  /** The w low binary digits of n, lowest first. */
  function NatBits(n: nat, w: nat): (r: seq<bool>)
    ensures |r| == w
  {
    if w == 0 then [] else [n % 2 == 1] + NatBits(n / 2, w - 1)
  }

  /** The number a bit string spells, lowest bit first. */
  function FromBits(s: seq<bool>): nat {
    if s == [] then 0 else (if s[0] then 1 else 0) + 2 * FromBits(s[1..])
  }

  function Pow2(k: nat): (r: nat)
    ensures r > 0
  {
    if k == 0 then 1 else 2 * Pow2(k - 1)
  }

  /** Writing n in w bits and reading it back gives n mod 2^w. */
  lemma {:induction false} FromNatBits(n: nat, w: nat)
    ensures FromBits(NatBits(n, w)) == n % Pow2(w)
  {
    if w > 0 {
      FromNatBits(n / 2, w - 1);
      assert NatBits(n, w)[1..] == NatBits(n / 2, w - 1);
      HalfMod(n, Pow2(w - 1));
    }
  }

  lemma HalfMod(n: nat, m: nat)
    requires m > 0
    ensures n % (2 * m) == n % 2 + 2 * (n / 2 % m)
  {
    var q := n / 2 / m;
    assert n / 2 == q * m + n / 2 % m;
    assert n == q * (2 * m) + (n % 2 + 2 * (n / 2 % m)) by {
      assert q * (2 * m) == 2 * (q * m);
    }
    DivModUnique(n, 2 * m, q, n % 2 + 2 * (n / 2 % m));
  }

  lemma {:induction false} FromBitsBound(s: seq<bool>)
    ensures FromBits(s) < Pow2(|s|)
  {
    if s != [] {
      FromBitsBound(s[1..]);
    }
  }

  lemma {:induction false} NatBitsOfFrom(s: seq<bool>)
    ensures NatBits(FromBits(s), |s|) == s
  {
    if s != [] {
      NatBitsOfFrom(s[1..]);
      assert FromBits(s) % 2 == 1 <==> s[0];
      assert FromBits(s) / 2 == FromBits(s[1..]);
    }
  }

  /** Longer bit strings start with shorter ones. */
  lemma {:induction false} NatBitsPrefix(n: nat, v: nat, w: nat)
    requires v <= w
    ensures NatBits(n, w)[..v] == NatBits(n, v)
  {
    if v > 0 {
      NatBitsPrefix(n / 2, v - 1, w - 1);
      assert NatBits(n, w)[..v] == [n % 2 == 1] + NatBits(n / 2, w - 1)[..v - 1];
    }
  }

  /** n >> v, one bit at a time. */
  function ShiftRight(n: nat, v: nat): nat {
    if v == 0 then n else ShiftRight(n / 2, v - 1)
  }

  lemma {:induction false} ShiftRightIsDivision(n: nat, v: nat)
    ensures ShiftRight(n, v) == n / Pow2(v)
    decreases v
  {
    if v > 0 {
      ShiftRightIsDivision(n / 2, v - 1);
      DivDiv(n, Pow2(v - 1));
    }
  }

  lemma {:induction false} NatBitsSplit(n: nat, v: nat, w: nat)
    ensures NatBits(n, v + w) == NatBits(n, v) + NatBits(ShiftRight(n, v), w)
    decreases v
  {
    hide NatBits;
    if v == 0 {
      NatBitsNone(n);
    } else {
      NatBitsSplit(n / 2, v - 1, w);
      NatBitsCons(n, v);
      NatBitsCons(n, v + w);
      assert v + w - 1 == v - 1 + w;
    }
  }

  lemma NatBitsNone(n: nat)
    ensures NatBits(n, 0) == []
  {
  }

  lemma NatBitsCons(n: nat, w: nat)
    requires w > 0
    ensures NatBits(n, w) == [n % 2 == 1] + NatBits(n / 2, w - 1)
  {
  }

  lemma DivDiv(n: nat, m: nat)
    requires m > 0
    ensures n / 2 / m == n / (2 * m)
  {
    HalfMod(n, m);
    var q := n / 2 / m;
    assert n == q * (2 * m) + (n % 2 + 2 * (n / 2 % m)) by {
      assert n / 2 == q * m + n / 2 % m;
      assert q * (2 * m) == 2 * (q * m);
    }
    DivModUnique(n, 2 * m, q, n % 2 + 2 * (n / 2 % m));
  }

  lemma NatBitsCong(n: nat, m: nat, w: nat)
    requires n % Pow2(w) == m % Pow2(w)
    ensures NatBits(n, w) == NatBits(m, w)
  {
    FromNatBits(n, w);
    FromNatBits(m, w);
    NatBitsOfFrom(NatBits(n, w));
    NatBitsOfFrom(NatBits(m, w));
  }

  // --------------------------------------------- 32-bit words as four bytes

  function WordBytes(n: nat): (r: seq<bv8>)
    ensures |r| == 4
  {
    [(n % 256) as bv8, (n / 256 % 256) as bv8, (n / 65536 % 256) as bv8, (n / 16777216 % 256) as bv8]
  }

  function BytesWord(b: seq<bv8>): nat
    requires |b| == 4
  {
    b[0] as int + 256 * b[1] as int + 65536 * b[2] as int + 16777216 * b[3] as int
  }

  lemma ByteBits(n: nat)
    requires n < 256
    ensures BitsOf(n as bv8) == NatBits(n, 8)
  {
    hide *;
    LowHalf(n);
    HighHalf(n);
    FourBits(n);
    FourBits(n / 16);
    NatBitsSplit(n, 4, 4);
    SixteenthIs(n);
    var v, b := NatBits(n, 4) + NatBits(n / 16, 4), n as bv8;
    HigherParts(n);
    assert v[0] == Bit(b, 0) && v[1] == Bit(b, 1) && v[2] == Bit(b, 2) && v[3] == Bit(b, 3);
    assert v[4] == Bit(b, 4) && v[5] == Bit(b, 5) && v[6] == Bit(b, 6) && v[7] == Bit(b, 7);
    BitsAre(b, v);
  }

  lemma HigherParts(n: nat)
    ensures n / 16 / 2 == n / 32 && n / 16 / 4 == n / 64 && n / 16 / 8 == n / 128
    ensures n / 256 / 256 == n / 65536 && n / 65536 / 256 == n / 16777216
  {
  }

  lemma SixteenthIs(n: nat)
    ensures ShiftRight(n, 4) == n / 16
  {
    assert ShiftRight(n, 4) == ShiftRight(n / 2, 3) == ShiftRight(n / 4, 2) == ShiftRight(n / 8, 1);
  }

  lemma LowHalf(n: nat)
    requires n < 256
    ensures Bit(n as bv8, 0) <==> n % 2 == 1
    ensures Bit(n as bv8, 1) <==> n / 2 % 2 == 1
    ensures Bit(n as bv8, 2) <==> n / 4 % 2 == 1
    ensures Bit(n as bv8, 3) <==> n / 8 % 2 == 1
  {
  }

  lemma HighHalf(n: nat)
    requires n < 256
    ensures Bit(n as bv8, 4) <==> n / 16 % 2 == 1
    ensures Bit(n as bv8, 5) <==> n / 32 % 2 == 1
    ensures Bit(n as bv8, 6) <==> n / 64 % 2 == 1
    ensures Bit(n as bv8, 7) <==> n / 128 % 2 == 1
  {
  }

  lemma FourBits(n: nat)
    ensures NatBits(n, 4) == [n % 2 == 1, n / 2 % 2 == 1, n / 4 % 2 == 1, n / 8 % 2 == 1]
  {
    hide NatBits;
    NatBitsCons(n, 4);
    NatBitsCons(n / 2, 3);
    NatBitsCons(n / 4, 2);
    NatBitsCons(n / 8, 1);
    NatBitsNone(n / 16);
  }

  lemma ViewCons(b: bv8, rest: seq<bv8>)
    ensures View([b] + rest) == BitsOf(b) + View(rest)
  {
    hide BitsOf;
    var v := View([b] + rest);
    forall k | 0 <= k < |v|
      ensures v[k] == (BitsOf(b) + View(rest))[k]
    {
      assert ([b] + rest)[k / 8] == if k < 8 then b else rest[k / 8 - 1];
    }
  }

  lemma ViewFour(b: seq<bv8>)
    requires |b| == 4
    ensures View(b) == BitsOf(b[0]) + (BitsOf(b[1]) + (BitsOf(b[2]) + BitsOf(b[3])))
  {
    hide View;
    hide BitsOf;
    ViewCons(b[0], b[1..]);
    ViewCons(b[1], b[2..]);
    ViewCons(b[2], b[3..]);
    ViewCons(b[3], []);
    assert b == [b[0]] + b[1..] && b[1..] == [b[1]] + b[2..] && b[2..] == [b[2]] + b[3..] && b[3..] == [b[3]] + [];
  }

  lemma ShiftRightByte(n: nat)
    ensures ShiftRight(n, 8) == n / 256
  {
    SixteenthIs(n);
    SixteenthIs(n / 16);
    ShiftRightAdds(n, 4, 4);
  }

  lemma {:induction false} ShiftRightAdds(n: nat, v: nat, w: nat)
    ensures ShiftRight(n, v + w) == ShiftRight(ShiftRight(n, v), w)
  {
    if v > 0 {
      ShiftRightAdds(n / 2, v - 1, w);
    }
  }

  lemma PowByte()
    ensures Pow2(8) == 256
  {
    assert Pow2(4) == 16;
  }

  lemma FirstByteBits(n: nat, w: nat)
    ensures NatBits(n, 8 + w) == BitsOf((n % 256) as bv8) + NatBits(n / 256, w)
  {
    hide *;
    NatBitsSplit(n, 8, w);
    ShiftRightByte(n);
    PowByte();
    NatBitsCong(n, n % 256, 8);
    ByteBits(n % 256);
  }

  /** The four bytes of a word hold its binary digits. */
  lemma WordView(n: nat)
    ensures View(WordBytes(n)) == NatBits(n, 32)
  {
    hide View;
    hide BitsOf;
    hide NatBits;
    HigherParts(n);
    ViewFour(WordBytes(n));
    FirstByteBits(n, 24);
    FirstByteBits(n / 256, 16);
    FirstByteBits(n / 65536, 8);
    FirstByteBits(n / 16777216, 0);
    NatBitsNone(n / 16777216 / 256);
  }

  lemma {:induction false} FromBitsConcat(s: seq<bool>, t: seq<bool>)
    ensures FromBits(s + t) == FromBits(s) + Pow2(|s|) * FromBits(t)
  {
    if s == [] {
      assert s + t == t;
    } else {
      FromBitsConcat(s[1..], t);
      assert (s + t)[1..] == s[1..] + t;
      assert 2 * (Pow2(|s| - 1) * FromBits(t)) == Pow2(|s|) * FromBits(t);
    }
  }

  lemma {:induction false} FromZeros(s: seq<bool>)
    requires forall k :: 0 <= k < |s| ==> !s[k]
    ensures FromBits(s) == 0
  {
    if s != [] {
      FromZeros(s[1..]);
    }
  }

  lemma ByteSum(b: bv8)
    ensures b as int == (if Bit(b, 0) then 1 else 0) + (if Bit(b, 1) then 2 else 0) + (if Bit(b, 2) then 4 else 0)
                      + (if Bit(b, 3) then 8 else 0) + (if Bit(b, 4) then 16 else 0) + (if Bit(b, 5) then 32 else 0)
                      + (if Bit(b, 6) then 64 else 0) + (if Bit(b, 7) then 128 else 0)
  {
  }

  lemma FromFour(s: seq<bool>)
    requires |s| >= 4
    ensures FromBits(s) == (if s[0] then 1 else 0) + (if s[1] then 2 else 0) + (if s[2] then 4 else 0)
                         + (if s[3] then 8 else 0) + 16 * FromBits(s[4..])
  {
    assert s[1..][1..] == s[2..] && s[2..][1..] == s[3..] && s[3..][1..] == s[4..];
    assert FromBits(s[2..]) == (if s[2] then 1 else 0) + 2 * FromBits(s[3..]);
  }

  lemma ByteFromBits(b: bv8)
    ensures FromBits(BitsOf(b)) == b as int
  {
    hide FromBits;
    hide Bit;
    var s := BitsOf(b);
    ByteSum(b);
    FromFour(s);
    FromFour(s[4..]);
    FromZeros(s[4..][4..]);
  }

  /** Reading a word back from four bytes. */
  lemma WordFromView(b: seq<bv8>)
    requires |b| == 4
    ensures BytesWord(b) == FromBits(View(b))
  {
    hide View;
    hide BitsOf;
    hide FromBits;
    hide Pow2;
    ViewFour(b);
    PowByte();
    ByteFromBits(b[0]);
    ByteFromBits(b[1]);
    ByteFromBits(b[2]);
    ByteFromBits(b[3]);
    FromBitsConcat(BitsOf(b[2]), BitsOf(b[3]));
    FromBitsConcat(BitsOf(b[1]), BitsOf(b[2]) + BitsOf(b[3]));
    FromBitsConcat(BitsOf(b[0]), BitsOf(b[1]) + (BitsOf(b[2]) + BitsOf(b[3])));
  }

  // -------------------------------------------------- buffers and their bits

  lemma ViewPrefix(bytes: seq<bv8>, n: nat)
    requires n <= |bytes|
    ensures View(bytes[..n]) == View(bytes)[..8 * n]
  {
    hide BitsOf;
  }

  lemma ViewSuffix(bytes: seq<bv8>, n: nat)
    requires n <= |bytes|
    ensures View(bytes[n..]) == View(bytes)[8 * n..]
  {
    hide BitsOf;
    var v := View(bytes[n..]);
    forall k | 0 <= k < |v|
      ensures v[k] == View(bytes)[8 * n..][k]
    {
      assert (8 * n + k) / 8 == n + k / 8 && (8 * n + k) % 8 == k % 8;
    }
  }

  lemma SameBitsSameByte(b: bv8, c: bv8)
    requires BitsOf(b) == BitsOf(c)
    ensures b == c
  {
    hide BitsOf;
    hide FromBits;
    ByteFromBits(b);
    ByteFromBits(c);
    SameNumberSameByte(b, c);
  }

  lemma SameNumberSameByte(b: bv8, c: bv8)
    requires b as int == c as int
    ensures b == c
  {
    ByteSum(b);
    ByteSum(c);
  }

  /** Bits determine bytes. */
  lemma ViewInjective(a: seq<bv8>, b: seq<bv8>)
    requires View(a) == View(b)
    ensures a == b
  {
    hide BitsOf;
    assert |View(a)| == |View(b)|;
    forall i | 0 <= i < |a|
      ensures a[i] == b[i]
    {
      hide View;
      ViewByte(a, i);
      ViewByte(b, i);
      SameBitsSameByte(a[i], b[i]);
    }
  }

  /** (n & (1 << d)) != 0. */
  predicate TestBit(n: nat, d: nat) {
    ShiftRight(n, d) % 2 == 1
  }

  lemma {:induction false} TestBitIsBit(n: nat, d: nat, w: nat)
    requires d < w
    ensures TestBit(n, d) == NatBits(n, w)[d]
    decreases d
  {
    NatBitsCons(n, w);
    hide NatBits;
    if d > 0 {
      TestBitIsBit(n / 2, d - 1, w - 1);
    }
  }

  lemma {:induction false} TestBitAbove(n: nat, d: nat, w: nat)
    requires w <= d && n < Pow2(w)
    ensures !TestBit(n, d)
    decreases d
  {
    if w == 0 {
      ZeroShifted(d);
    } else {
      TestBitAbove(n / 2, d - 1, w - 1);
    }
  }

  lemma {:induction false} ZeroShifted(d: nat)
    ensures ShiftRight(0, d) == 0
  {
    if d > 0 {
      ZeroShifted(d - 1);
    }
  }

  lemma {:induction false} Pow2Monotone(m: nat, n: nat)
    requires m <= n
    ensures Pow2(m) <= Pow2(n)
    decreases n
  {
    if m < n {
      Pow2Monotone(m, n - 1);
    }
  }
}
