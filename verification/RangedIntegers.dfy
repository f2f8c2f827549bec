/** Integers of a known range, written in as few bits as the range needs. */
module RangedIntegers {
  import opened Bits
  import opened BitStream
  import BitShifts

  /** get_binary_log: the exponent of the number as a float, up to 2^24 the exact logarithm
      rounded down. */
  function BinaryLog(v: nat): (r: nat)
    requires v > 0
    ensures Pow2(r) <= v < Pow2(r + 1)
  {
    if v == 1 then 0 else 1 + BinaryLog(v / 2)
  }

  /** get_next_binary_log: the least number of bits that v values need. */
  function NextBinaryLog(v: nat): (r: nat)
    requires v > 0
    ensures v <= Pow2(r) && (r > 0 ==> Pow2(r - 1) < v)
  {
    BinaryLog(v) + if v == Pow2(BinaryLog(v)) then 0 else 1
  }

  function Width(low: nat, high: nat): (r: nat)
    requires low <= high < low + 0x100_0000
    ensures r <= 24
  {
    RangeFits(low, high);
    NextBinaryLog(high - low + 1)
  }

  lemma RangeFits(low: nat, high: nat)
    requires low <= high < low + 0x100_0000
    ensures NextBinaryLog(high - low + 1) <= 24
  {
    var r := NextBinaryLog(high - low + 1);
    assert Pow2(24) == 0x100_0000 by {
      BitShifts.Pow2Add(12, 12);
    }
    if r > 24 {
      Pow2Monotone(24, r - 1);
    }
  }

  /** write_ranged_uint32. */
  method WriteRanged(stream: Stream, value: nat, low: nat, high: nat)
    requires stream.Valid() && low <= value <= high < low + 0x100_0000
    modifies stream`bitNum, stream`isDirty, stream`errorDetected, stream.base
    ensures stream.Valid()
    ensures stream.bitNum == old(stream.bitNum) + Min(Width(low, high), stream.bitEnd - old(stream.bitNum))
    ensures stream.Bits() ==
            Overwrite(old(stream.Bits()), old(stream.bitNum), NatBits(value - low, stream.bitNum - old(stream.bitNum)))
  {
    var width := Width(low, high);
    stream.WriteInteger(value - low, width);
  }

  /** read_ranged_uint32. */
  method ReadRanged(stream: Stream, low: nat, high: nat) returns (r: nat)
    requires stream.Valid() && low <= high < low + 0x100_0000
    modifies stream`bitNum, stream`errorDetected
    ensures stream.Valid()
    ensures stream.bitNum == old(stream.bitNum) + Min(Width(low, high), stream.bitEnd - old(stream.bitNum))
    ensures r == low + FromBits(stream.Bits()[old(stream.bitNum)..stream.bitNum])
  {
    var width := Width(low, high);
    var v := stream.ReadInteger(width);
    r := low + v;
  }

  /** A value of the range is read back from the bits it was written in, and a range that is not a
      power of two leaves room for values beyond its end. */
  lemma RangedRoundTrip(value: nat, low: nat, high: nat)
    requires low <= value <= high < low + 0x100_0000
    ensures low + FromBits(NatBits(value - low, Width(low, high))) == value
  {
    var w, v := Width(low, high), value - low;
    assert v < Pow2(w);
    hide *;
    FromNatBits(v, w);
    SmallModulo(v, Pow2(w));
  }

  lemma SmallModulo(v: nat, m: nat)
    requires v < m
    ensures v % m == v
  {
  }

  /** The ack byte count of a packet header, 0 to 4, takes three bits. */
  lemma CountTakesThreeBits()
    ensures Width(0, 4) == 3
  {
    assert BinaryLog(5) == 1 + BinaryLog(2) && BinaryLog(2) == 1 + BinaryLog(1);
    assert Pow2(2) == 4;
  }
}
