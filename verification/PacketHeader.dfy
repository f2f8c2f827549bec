/** The header as bits: how it is written and how it is read back. */
module PacketHeader {
  import opened Arith
  import opened Bits
  import opened Endpoint

  function KindCode(k: Kind): nat {
    match k
    case Data => 0
    case Ping => 1
    case Ack => 2
    case Invalid => 3
  }

  function KindOf(code: nat): Kind {
    match code
    case 0 => Data
    case 1 => Ping
    case 2 => Ack
    case _ => Invalid
  }

  /** The bits write_packet_header puts on the wire, up to the padding. */
  function Encode(h: Header): seq<bool> {
    Prologue(h) + NatBits(h.ackBytes, 3) + h.mask
  }

  /** The first three bytes: type, 5 + 6 bits of the sequence around the packet flag,
      and 10 bits of the highest sequence received. */
  function Prologue(h: Header): (r: seq<bool>)
    ensures |r| == 24
  {
    NatBits(KindCode(h.kind), 2) + NatBits(h.seqBits % 32, 5) + [true]
    + NatBits(h.seqBits / 32, 6) + NatBits(h.ackBits, 10)
  }

  /** What a read of w bits at position p gives: missing bits are zero. */
  function Field(bits: seq<bool>, p: nat, w: nat): nat {
    FromBits(Clip(bits, p, w))
  }

  function Clip(bits: seq<bool>, p: nat, w: nat): seq<bool> {
    if p + w <= |bits| then bits[p..p + w] else if p <= |bits| then bits[p..] else []
  }

  /** The header that a bit string carries. */
  function Parse(bits: seq<bool>): (h: Header)
    ensures h.WellFormed()
  {
    FieldBounds(bits);
    var count := Field(bits, 24, 3);
    Header(KindOf(Field(bits, 0, 2)),
           Field(bits, 2, 5) + 32 * Field(bits, 8, 6),
           Field(bits, 14, 10),
           count,
           if count <= MAX_ACK_BYTES then NatBits(Field(bits, 27, 8 * count), 8 * count) else [])
  }

  lemma FieldBound(bits: seq<bool>, p: nat, w: nat)
    ensures Field(bits, p, w) < Pow2(w)
  {
    FromBitsBound(Clip(bits, p, w));
    Pow2Monotone(|Clip(bits, p, w)|, w);
  }

  lemma FieldPowers()
    ensures Pow2(1) == 2 && Pow2(2) == 4 && Pow2(3) == 8 && Pow2(5) == 32 && Pow2(6) == 64 && Pow2(10) == 1024
  {
    assert Pow2(4) == 16 && Pow2(7) == 128 && Pow2(8) == 256 && Pow2(9) == 512;
  }

  lemma FieldBounds(bits: seq<bool>)
    ensures Field(bits, 0, 2) < 4 && Field(bits, 2, 5) < 32 && Field(bits, 8, 6) < 64
    ensures Field(bits, 14, 10) < 1024 && Field(bits, 24, 3) < 8
  {
    FieldPowers();
    FieldBound(bits, 0, 2);
    FieldBound(bits, 2, 5);
    FieldBound(bits, 8, 6);
    FieldBound(bits, 14, 10);
    FieldBound(bits, 24, 3);
  }

  /** A field written at p and read there. */
  lemma FieldOf(before: seq<bool>, n: nat, w: nat, after: seq<bool>)
    requires n < Pow2(w)
    ensures Field(before + NatBits(n, w) + after, |before|, w) == n
  {
    hide NatBits;
    hide FromBits;
    var bits := before + NatBits(n, w) + after;
    assert bits[|before|..|before| + w] == NatBits(n, w);
    FromNatBits(n, w);
    hide Pow2;
    DivModUnique(n, Pow2(w), 0, n);
  }

  /** Whatever follows it, a written header is read back as it was. */
  lemma ParseEncode(h: Header, rest: seq<bool>)
    requires h.WellFormed() && h.ackBytes <= MAX_ACK_BYTES
    ensures Parse(Encode(h) + rest) == h
  {
    hide NatBits;
    hide FromBits;
    hide Field;
    hide Pow2;
    FieldPowers();
    var bits := Encode(h) + rest;
    var a, b, c, d, e := NatBits(KindCode(h.kind), 2), NatBits(h.seqBits % 32, 5), NatBits(h.seqBits / 32, 6),
                         NatBits(h.ackBits, 10), NatBits(h.ackBytes, 3);
    assert bits == [] + a + (b + [true] + c + d + e + h.mask + rest);
    FieldOf([], KindCode(h.kind), 2, b + [true] + c + d + e + h.mask + rest);
    assert bits == a + b + ([true] + c + d + e + h.mask + rest);
    FieldOf(a, h.seqBits % 32, 5, [true] + c + d + e + h.mask + rest);
    assert bits == (a + b + [true]) + c + (d + e + h.mask + rest);
    FieldOf(a + b + [true], h.seqBits / 32, 6, d + e + h.mask + rest);
    assert bits == (a + b + [true] + c) + d + (e + h.mask + rest);
    FieldOf(a + b + [true] + c, h.ackBits, 10, e + h.mask + rest);
    assert bits == (a + b + [true] + c + d) + e + (h.mask + rest);
    FieldOf(a + b + [true] + c + d, h.ackBytes, 3, h.mask + rest);
    ParseMask(a + b + [true] + c + d + e, h.mask, rest);
    assert bits == (a + b + [true] + c + d + e) + h.mask + rest;
  }

  lemma ParseMask(before: seq<bool>, mask: seq<bool>, rest: seq<bool>)
    ensures NatBits(Field(before + mask + rest, |before|, |mask|), |mask|) == mask
  {
    hide NatBits;
    hide FromBits;
    var bits := before + mask + rest;
    assert bits[|before|..|before| + |mask|] == mask;
    NatBitsOfFrom(mask);
  }

  /** The top bit of the first byte is always set: it marks a connection's packet. */
  lemma FlagIsSet(h: Header, rest: seq<bool>)
    ensures (Encode(h) + rest)[7]
  {
  }

  // --------------------------------------------------------- the layout, in numbers

  /** The bits on the wire: the first byte is type + 4 * (low five bits of the sequence) + 128, then
      come six more bits of the sequence, ten bits of the ack, three bits for the number of ack
      bytes, and the low bits of the ack word. */
  ghost predicate OnTheWire(bits: seq<bool>, kind: Kind, sequence: nat, ack: nat, count: nat, word: nat) {
    && count <= 4 && |bits| >= 27 + 8 * count
    && FromBits(bits[..8])
       == (match kind case Data => 0 case Ping => 1 case Ack => 2 case Invalid => 3) + 4 * (sequence % 32) + 128
    && FromBits(bits[8..14]) == sequence / 32 % 64
    && FromBits(bits[14..24]) == ack % 1024
    && FromBits(bits[24..27]) == count
    && forall i :: 0 <= i < 8 * count ==> (bits[27 + i] <==> word / Pow2(i) % 2 == 1)
  }

  lemma {:induction false} NatBitAt(n: nat, w: nat, i: nat)
    requires i < w
    ensures NatBits(n, w)[i] <==> n / Pow2(i) % 2 == 1
    decreases w
  {
    if i > 0 {
      NatBitAt(n / 2, w - 1, i - 1);
      DivDiv(n, Pow2(i - 1));
    } else {
      assert n / 1 == n;
    }
  }

  lemma FirstByteOf(a: seq<bool>, b: seq<bool>, c: seq<bool>)
    requires |a| == 2 && |b| == 5 && |c| == 1
    ensures FromBits(a + b + c) == FromBits(a) + 4 * FromBits(b) + 128 * FromBits(c)
    ensures FromBits(a) < 4 && FromBits(b) < 32 && FromBits(c) < 2 && (FromBits(c) == 1 <==> c[0])
  {
    FromBitsConcat(a + b, c);
    FromBitsConcat(a, b);
    FromBitsBound(a);
    FromBitsBound(b);
    FieldPowers();
    assert Pow2(7) == 128;
    assert c[1..] == [];
  }

  lemma SequenceOf(n: nat)
    ensures n % 32 + 32 * (n / 32 % 64) == n % 2048
  {
    var q := n / 32;
    DivModUnique(n, 2048, q / 64, n % 32 + 32 * (q % 64));
  }

  lemma LowBitsOf(n: nat)
    ensures n % 32 == n % 2048 % 32 && n / 32 % 64 == n % 2048 / 32 % 64
  {
    SequenceOf(n);
    DivModUnique(n % 2048, 32, n / 32 % 64, n % 32);
    DivModUnique(n / 32 % 64, 64, 0, n / 32 % 64);
  }

  /** A written header has this layout. */
  lemma EncodeOnTheWire(h: Header, bits: seq<bool>, sequence: nat, ack: nat, word: nat)
    requires h.WellFormed() && h.ackBytes <= 4 && Encode(h) <= bits
    requires h.seqBits == sequence % 2048 && h.ackBits == ack % 1024 && h.mask == NatBits(word, 8 * h.ackBytes)
    ensures OnTheWire(bits, h.kind, sequence, ack, h.ackBytes, word)
  {
    hide NatBits;
    hide FromBits;
    FieldPowers();
    hide Pow2;
    LowBitsOf(sequence);
    var code := KindCode(h.kind);
    var a, b, c, d, e := NatBits(code, 2), NatBits(h.seqBits % 32, 5), NatBits(h.seqBits / 32, 6),
                         NatBits(h.ackBits, 10), NatBits(h.ackBytes, 3);
    assert Encode(h) == a + b + [true] + c + d + e + h.mask;
    assert bits[..8] == a + b + [true] && bits[8..14] == c && bits[14..24] == d && bits[24..27] == e;
    FirstByteOf(a, b, [true]);
    FromNatBits(code, 2);
    FromNatBits(h.seqBits % 32, 5);
    FromNatBits(h.seqBits / 32, 6);
    FromNatBits(h.ackBits, 10);
    FromNatBits(h.ackBytes, 3);
    forall i | 0 <= i < 8 * h.ackBytes
      ensures bits[27 + i] <==> word / Pow2(i) % 2 == 1
    {
      assert bits[27 + i] == Encode(h)[27 + i] == h.mask[i];
      NatBitAt(word, 8 * h.ackBytes, i);
    }
  }

  lemma FirstByteRead(x: nat, y: nat, z: nat, t: nat, sequence: nat)
    requires x < 4 && y < 32 && z < 2 && t < 4 && x + 4 * y + 128 * z == t + 4 * (sequence % 32) + 128
    ensures x == t && y == sequence % 32
  {
  }

  lemma FieldsOnTheWire(bits: seq<bool>, kind: Kind, sequence: nat, ack: nat, count: nat, word: nat)
    requires OnTheWire(bits, kind, sequence, ack, count, word)
    ensures KindOf(Field(bits, 0, 2)) == kind
    ensures Field(bits, 2, 5) == sequence % 32 && Field(bits, 8, 6) == sequence / 32 % 64
    ensures Field(bits, 14, 10) == ack % 1024 && Field(bits, 24, 3) == count
  {
    hide FromBits;
    hide Pow2;
    FirstByteOf(bits[..2], bits[2..7], bits[7..8]);
    assert bits[..8] == bits[..2] + bits[2..7] + bits[7..8];
    assert bits[0..2] == bits[..2];
    FirstByteRead(FromBits(bits[..2]), FromBits(bits[2..7]), FromBits(bits[7..8]), KindCode(kind), sequence);
  }

  lemma MaskOnTheWire(bits: seq<bool>, kind: Kind, sequence: nat, ack: nat, count: nat, word: nat)
    requires OnTheWire(bits, kind, sequence, ack, count, word)
    ensures NatBits(Field(bits, 27, 8 * count), 8 * count) == NatBits(word, 8 * count)
  {
    hide NatBits;
    hide FromBits;
    hide Pow2;
    var mask := bits[27..27 + 8 * count];
    NatBitsOfFrom(mask);
    forall i | 0 <= i < 8 * count
      ensures mask[i] == NatBits(word, 8 * count)[i]
    {
      NatBitAt(word, 8 * count, i);
      assert mask[i] == bits[27 + i];
    }
    assert mask == NatBits(word, 8 * count);
  }

  /** And whatever has this layout, whoever wrote it, is read as these numbers. */
  lemma ParseOnTheWire(bits: seq<bool>, kind: Kind, sequence: nat, ack: nat, count: nat, word: nat)
    requires OnTheWire(bits, kind, sequence, ack, count, word)
    ensures Parse(bits) == Header(kind, sequence % 2048, ack % 1024, count, NatBits(word, 8 * count))
  {
    FieldsOnTheWire(bits, kind, sequence, ack, count, word);
    MaskOnTheWire(bits, kind, sequence, ack, count, word);
    assert count <= 4;
    hide *;
    SequenceOf(sequence);
    ParseIs(bits);
  }

  lemma ParseIs(bits: seq<bool>)
    ensures var count := Field(bits, 24, 3);
      Parse(bits) == Header(KindOf(Field(bits, 0, 2)), Field(bits, 2, 5) + 32 * Field(bits, 8, 6), Field(bits, 14, 10),
                            count, if count <= 4 then NatBits(Field(bits, 27, 8 * count), 8 * count) else [])
  {
  }
}
