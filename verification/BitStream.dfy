/** Copying bits between byte buffers at any alignment, and the stream built on it. */
module BitStream {
  import opened Bits

  /** A copy to be made, in terms of the bits of the two buffers. */
  datatype Job = Job(dest: seq<bool>, destBit: nat, source: seq<bool>, sourceBit: nat, count: nat) {
    predicate Valid() {
      && 0 < count && destBit + count <= |dest| && sourceBit + count <= |source|
      && |dest| % 8 == 0 && |source| % 8 == 0
    }

    /** The destination after the copy: exactly the requested bits replaced. */
    function Result(): (r: seq<bool>)
      requires Valid()
      ensures |r| == |dest|
    {
      dest[..destBit] + source[sourceBit..sourceBit + count] + dest[destBit + count..]
    }

    /** The destination if the copy started where it does but never ended. */
    function Endless(): (r: seq<bool>)
      requires Valid()
      ensures |r| >= destBit + count
    {
      dest[..destBit] + source[sourceBit..]
    }

    /** v is what the endless copy has from bit k on. */
    ghost predicate Next(v: seq<bool>, k: nat)
      requires Valid()
    {
      k + |v| <= |Endless()| && Endless()[k..k + |v|] == v
    }

    /** The first n bytes are final, the others untouched. */
    ghost predicate Prefix(now: seq<bool>, n: nat)
      requires Valid()
    {
      && |now| == |dest| && 8 * n <= |dest|
      && now[..8 * n] == Result()[..8 * n]
      && now[8 * n..] == dest[8 * n..]
    }

    lemma Skip(now: seq<bool>, n: nat, m: nat)
      requires Valid() && n <= m && 8 * m <= |dest| && Prefix(now, n)
      requires 8 * m <= destBit || destBit + count <= 8 * n
      ensures Prefix(now, m)
    {
      forall k | 8 * n <= k < 8 * m
        ensures now[k] == Result()[k]
      {
        assert now[k] == now[8 * n..][k - 8 * n] == dest[8 * n..][k - 8 * n] == dest[k];
      }
      assert now[..8 * m] == now[..8 * n] + now[8 * n..8 * m];
      assert Result()[..8 * m] == Result()[..8 * n] + Result()[8 * n..8 * m];
      assert now[8 * m..] == now[8 * n..][8 * (m - n)..];
      assert dest[8 * m..] == dest[8 * n..][8 * (m - n)..];
    }

    lemma EndlessIsResult(k: nat, m: nat)
      requires Valid() && k <= m <= destBit + count
      ensures Endless()[k..m] == Result()[k..m]
    {
      forall i | k <= i < m
        ensures Endless()[i] == Result()[i]
      {
      }
    }

    /** Writing a byte that continues the endless copy extends the prefix. */
    lemma WriteByte(now: seq<bool>, n: nat, v: seq<bool>)
      requires Valid() && |v| == 8 && Prefix(now, n) && 8 * n + 8 <= destBit + count && Next(v, 8 * n)
      ensures Prefix(now[..8 * n] + v + now[8 * n + 8..], n + 1)
    {
      EndlessIsResult(8 * n, 8 * n + 8);
      assert Result()[..8 * n + 8] == Result()[..8 * n] + Result()[8 * n..8 * n + 8];
      assert now[8 * n + 8..] == now[8 * n..][8..] == dest[8 * n..][8..] == dest[8 * n + 8..];
    }

    /** The last byte: m bits of the copy, then the destination's own. */
    lemma WriteLastByte(now: seq<bool>, n: nat, v: seq<bool>, m: nat)
      requires Valid() && |v| == m <= 8 && Prefix(now, n)
      requires 8 * n + m == destBit + count && Next(v, 8 * n) && 8 * n + 8 <= |dest|
      ensures Prefix(now[..8 * n] + (v + dest[8 * n..8 * n + 8][m..]) + now[8 * n + 8..], n + 1)
    {
      EndlessIsResult(8 * n, 8 * n + m);
      assert dest[8 * n..8 * n + 8][m..] == dest[8 * n + m..8 * n + 8] == Result()[8 * n + m..8 * n + 8];
      assert Result()[8 * n..8 * n + 8] == Result()[8 * n..8 * n + m] + Result()[8 * n + m..8 * n + 8];
      assert Result()[..8 * n + 8] == Result()[..8 * n] + Result()[8 * n..8 * n + 8];
      assert now[8 * n + 8..] == now[8 * n..][8..] == dest[8 * n..][8..] == dest[8 * n + 8..];
    }

    /** A stretch of source bits is the endless copy's stretch above destBit. */
    lemma FromSource(k: nat, s: nat, n: nat)
      requires Valid() && destBit <= k && s + n <= |source| && s == sourceBit + k - destBit
      ensures Next(source[s..s + n], k)
    {
    }

    lemma FromDest(k: nat, n: nat)
      requires Valid() && k + n <= destBit
      ensures Next(dest[k..k + n], k)
    {
    }

    lemma Joined(v: seq<bool>, w: seq<bool>, k: nat)
      requires Valid() && Next(v, k) && Next(w, k + |v|)
      ensures Next(v + w, k)
    {
      assert Endless()[k..k + |v| + |w|] == Endless()[k..k + |v|] + Endless()[k + |v|..k + |v| + |w|];
    }

    /** The first byte: the destination's bits below destBit, then source bits. */
    lemma FirstBits(d: nat, s: nat, n: nat)
      requires Valid() && 8 * d <= destBit && s == sourceBit && s + n <= |source|
      ensures Next(dest[8 * d..destBit] + source[s..s + n], 8 * d)
    {
      FromDest(8 * d, destBit - 8 * d);
      FromSource(destBit, s, n);
      Joined(dest[8 * d..destBit], source[s..s + n], 8 * d);
    }
  }

  lemma ViewSlice(bytes: seq<bv8>, n: nat, i: nat, j: nat)
    requires n < |bytes| && i <= j <= 8
    ensures View(bytes)[8 * n + i..8 * n + j] == BitsOf(bytes[n])[i..j]
    ensures i == 0 ==> View(bytes)[8 * n..8 * n + j] == BitsOf(bytes[n])[..j]
    ensures j == 8 ==> View(bytes)[8 * n + i..8 * n + 8] == BitsOf(bytes[n])[i..]
  {
    hide BitsOf;
    hide View;
    ViewByte(bytes, n);
    var v := View(bytes);
    assert v[8 * n + i..8 * n + j] == v[8 * n..8 * n + 8][i..j];
    assert BitsOf(bytes[n])[i..8] == BitsOf(bytes[n])[i..];
  }

  lemma UntouchedByte(job: Job, bytes: seq<bv8>, d: nat)
    requires job.Valid() && d < |bytes| && job.Prefix(View(bytes), d)
    ensures BitsOf(bytes[d]) == job.dest[8 * d..8 * d + 8]
  {
    hide BitsOf;
    hide View;
    ViewByte(bytes, d);
    var now := View(bytes);
    assert now[8 * d..8 * d + 8] == now[8 * d..][..8];
    assert job.dest[8 * d..8 * d + 8] == job.dest[8 * d..][..8];
  }

  /** Nothing is written before the byte that holds destBit. */
  lemma Begin(job: Job, bytes: seq<bv8>)
    requires job.Valid() && View(bytes) == job.dest
    ensures job.Prefix(View(bytes), job.destBit / 8)
  {
    job.Skip(View(bytes), 0, job.destBit / 8);
  }

  /** One whole byte written. */
  lemma Advance(job: Job, bytes: seq<bv8>, d: nat, v: bv8)
    requires job.Valid() && d < |bytes| && job.Prefix(View(bytes), d)
    requires 8 * d + 8 <= job.destBit + job.count && job.Next(BitsOf(v), 8 * d)
    ensures job.Prefix(View(bytes[d := v]), d + 1)
  {
    job.WriteByte(View(bytes), d, BitsOf(v));
    ViewUpdate(bytes, d, v);
  }

  /** The last byte keeps the destination's bits above `last`. */
  lemma Finish(job: Job, bytes: seq<bv8>, d: nat, v: seq<bool>, w: bv8)
    requires job.Valid() && d < |bytes| && |v| <= 8 && 8 * d + |v| == job.destBit + job.count
    requires job.Prefix(View(bytes), d) && job.Next(v, 8 * d)
    requires BitsOf(w) == v + BitsOf(bytes[d])[|v|..]
    ensures View(bytes[d := w]) == job.Result()
  {
    hide BitsOf;
    hide View;
    UntouchedByte(job, bytes, d);
    job.WriteLastByte(View(bytes), d, v, |v|);
    ViewUpdate(bytes, d, w);
    job.Skip(View(bytes[d := w]), d + 1, |bytes|);
  }

  lemma NextPrefix(job: Job, v: seq<bool>, n: nat, k: nat)
    requires job.Valid() && n <= |v| && job.Next(v, k)
    ensures job.Next(v[..n], k)
  {
    assert job.Endless()[k..k + n] == job.Endless()[k..k + |v|][..n];
  }

  /** A first byte made of the destination's low bits and source bits. */
  lemma FirstByte(job: Job, to: seq<bv8>, from: seq<bv8>, d: nat, i: nat, s: nat, j: nat, w: bv8)
    requires job.Valid() && View(to) == job.dest && View(from) == job.source
    requires job.destBit == 8 * d + i && job.sourceBit == 8 * s + j && i < 8 && j + 8 - i <= 8
    requires d < |to| && s < |from|
    requires BitsOf(w) == BitsOf(to[d])[..i] + BitsOf(from[s])[j..j + 8 - i]
    ensures job.Next(BitsOf(w), 8 * d)
  {
    hide *;
    ViewSlice(to, d, 0, i);
    ViewSlice(from, s, j, j + 8 - i);
    assert BitsOf(w) == job.dest[8 * d..8 * d + i] + job.source[8 * s + j..8 * s + j + 8 - i];
    job.FirstBits(d, job.sourceBit, 8 - i);
  }

  lemma WholeSourceByte(job: Job, from: seq<bv8>, s: nat, k: nat)
    requires job.Valid() && View(from) == job.source && s < |from|
    requires job.destBit <= k && 8 * s == job.sourceBit + k - job.destBit
    ensures job.Next(BitsOf(from[s]), k)
  {
    hide BitsOf;
    hide View;
    ViewByte(from, s);
    job.FromSource(k, 8 * s, 8);
  }

  /** (low & mask) | (high & ~mask), the mask having its k low bits set. */
  method Merge(low: bv8, high: bv8, k: nat) returns (r: bv8)
    requires k <= 8
    ensures BitsOf(r) == BitsOf(low)[..k] + BitsOf(high)[k..]
  {
    var mask := ToByte(LowMask(k));
    r := (low & mask) | (high & !mask);
    MergeLow(low, high, k);
  }

  /** The case where both buffers have the same bit offset. */
  method CopyAligned(dest: array<bv8>, destBit: nat, source: array<bv8>, sourceBit: nat, count: nat, ghost job: Job)
    requires dest != source && job.Valid()
    requires job == Job(View(dest[..]), destBit, View(source[..]), sourceBit, count)
    requires sourceBit % 8 == destBit % 8
    modifies dest
    ensures View(dest[..]) == job.Result()
  {
    hide BitsOf;
    hide View;
    var d, s, bit := destBit / 8, sourceBit / 8, sourceBit % 8;
    var lastWriteBit := bit + count - 1;
    var lastWriteByte := d + lastWriteBit / 8;
    var endBits := lastWriteBit % 8 + 1;
    assert 8 * lastWriteByte + endBits == destBit + count;

    // preload the first byte
    var buffer := Merge(dest[d], source[s], bit);
    FirstByte(job, dest[..], source[..], d, bit, s, bit, buffer);
    Begin(job, dest[..]);
    s := s + 1;
    while d != lastWriteByte
      invariant destBit / 8 <= d <= lastWriteByte < dest.Length
      invariant 8 * s == sourceBit + 8 * d - destBit + 8
      invariant source[..] == old(source[..])
      invariant job.Next(BitsOf(buffer), 8 * d)
      invariant job.Prefix(View(dest[..]), d)
      decreases lastWriteByte - d
    {
      ghost var before := dest[..];
      Advance(job, before, d, buffer);
      dest[d] := buffer;
      assert dest[..] == before[d := buffer];
      d := d + 1;
      WholeSourceByte(job, source[..], s, 8 * d);
      buffer := source[s];
      s := s + 1;
    }
    NextPrefix(job, BitsOf(buffer), endBits, 8 * d);
    LastByte(dest, d, buffer, endBits, job);
  }

  /** What both cases end with: the last byte keeps the destination's bits above endBits. */
  method LastByte(dest: array<bv8>, d: nat, buffer: bv8, endBits: nat, ghost job: Job)
    requires job.Valid() && d < dest.Length && endBits <= 8 && 8 * d + endBits == job.destBit + job.count
    requires job.Prefix(View(dest[..]), d) && job.Next(BitsOf(buffer)[..endBits], 8 * d)
    modifies dest
    ensures View(dest[..]) == job.Result()
  {
    hide BitsOf;
    hide View;
    var w := Merge(buffer, dest[d], endBits);
    Finish(job, dest[..], d, BitsOf(buffer)[..endBits], w);
    dest[d] := w;
  }

  lemma WaitingNext(job: Job, slider: bv32, u: nat, n: nat, k: nat)
    requires job.Valid() && n <= u <= 8 && job.Next(Waiting(slider, u), k)
    ensures job.Next(BitsOf(ToByte(slider))[..n], k)
  {
    NextPrefix(job, Waiting(slider, u), n, k);
    assert Waiting(slider, u)[..n] == BitsOf(ToByte(slider))[..n];
  }

  /** The slider holds nothing above its u waiting bits. */
  ghost predicate Fits(slider: bv32, u: nat) {
    u <= 8 && slider <= LowMask(u)
  }

  /** A source byte is put above the u waiting bits: eight bits leave, u wait on. */
  method Feed(slider: bv32, b: bv8, u: nat) returns (out: bv8, rest: bv32)
    requires 0 < u < 8 && Fits(slider, u)
    ensures BitsOf(out) == Waiting(slider, u) + BitsOf(b)[..8 - u]
    ensures Fits(rest, u) && Waiting(rest, u) == BitsOf(b)[8 - u..]
  {
    SlideOut(slider, b, u);
    SlideOn(slider, b, u);
    var t := slider | (b as bv32 << u);
    out, rest := ToByte(t), t >> 8;
  }

  lemma FedLow(job: Job, from: seq<bv8>, waiting: seq<bool>, s: nat, k: nat)
    requires job.Valid() && View(from) == job.source && s < |from|
    requires 0 < |waiting| < 8 && job.Next(waiting, k)
    requires job.destBit <= k + |waiting| && 8 * s == job.sourceBit + k + |waiting| - job.destBit
    ensures job.Next(waiting + BitsOf(from[s])[..8 - |waiting|], k)
  {
    hide BitsOf;
    hide View;
    var low := BitsOf(from[s])[..8 - |waiting|];
    ViewSlice(from, s, 0, 8 - |waiting|);
    job.FromSource(k + |waiting|, 8 * s, 8 - |waiting|);
    job.Joined(waiting, low, k);
  }

  lemma FedHigh(job: Job, from: seq<bv8>, u: nat, s: nat, k: nat)
    requires job.Valid() && View(from) == job.source && s < |from|
    requires 0 < u < 8 && job.destBit <= k + u && 8 * s == job.sourceBit + k + u - job.destBit
    ensures job.Next(BitsOf(from[s])[8 - u..], k + 8)
  {
    hide BitsOf;
    hide View;
    ViewSlice(from, s, 8 - u, 8);
    job.FromSource(k + 8, 8 * s + 8 - u, u);
  }

  /** u bits wait in the slider for byte d, and source byte s comes next. */
  ghost predicate Sliding(job: Job, now: seq<bv8>, from: seq<bv8>, d: nat, s: nat, slider: bv32, u: nat)
    requires job.Valid()
  {
    && View(from) == job.source
    && 8 * |now| == |job.dest| && job.Prefix(View(now), d)
    && 0 < u < 8 && Fits(slider, u) && job.Next(Waiting(slider, u), 8 * d)
    && job.destBit <= 8 * d + u && 8 * s == job.sourceBit + 8 * d + u - job.destBit
  }

  lemma SlideStep(job: Job, now: seq<bv8>, from: seq<bv8>, d: nat, s: nat, slider: bv32, u: nat, out: bv8, rest: bv32)
    requires job.Valid() && Sliding(job, now, from, d, s, slider, u)
    requires 8 * d + 8 <= job.destBit + job.count && d < |now| && s < |from|
    requires BitsOf(out) == Waiting(slider, u) + BitsOf(from[s])[..8 - u]
    requires Fits(rest, u) && Waiting(rest, u) == BitsOf(from[s])[8 - u..]
    ensures Sliding(job, now[d := out], from, d + 1, s + 1, rest, u)
  {
    hide BitsOf;
    hide View;
    FedLow(job, from, Waiting(slider, u), s, 8 * d);
    FedHigh(job, from, u, s, 8 * d);
    Advance(job, now, d, out);
  }

  /** The loop of the case where the bit offsets differ. */
  method SlideBytes(dest: array<bv8>, d0: nat, source: array<bv8>, s0: nat, slider0: bv32, u: nat,
                    lastWriteByte: nat, ghost job: Job) returns (s: nat, slider: bv32)
    requires dest != source && job.Valid()
    requires Sliding(job, dest[..], source[..], d0, s0, slider0, u)
    requires d0 <= lastWriteByte && 8 * lastWriteByte < job.destBit + job.count
    modifies dest
    ensures Sliding(job, dest[..], source[..], lastWriteByte, s, slider, u)
  {
    hide BitsOf;
    hide View;
    hide LowMask;
    hide Waiting;
    var d := d0;
    var out: bv8;
    s, slider := s0, slider0;
    while d != lastWriteByte
      invariant d0 <= d <= lastWriteByte < dest.Length
      invariant source[..] == old(source[..])
      invariant Sliding(job, dest[..], source[..], d, s, slider, u)
      decreases lastWriteByte - d
    {
      ghost var before, waiting := dest[..], slider;
      out, slider := Feed(slider, source[s], u);
      SlideStep(job, before, source[..], d, s, waiting, u, out, slider);
      s := s + 1;
      dest[d] := out;
      assert dest[..] == before[d := out];
      d := d + 1;
    }
  }

  /** After the loop: one more source byte is read only if the waiting bits do not suffice. */
  method LastBits(source: array<bv8>, s: nat, slider: bv32, u: nat, k: nat, endBits: nat, ghost job: Job)
    returns (out: bv8)
    requires job.Valid() && View(source[..]) == job.source
    requires 0 < u < 8 && Fits(slider, u) && job.Next(Waiting(slider, u), k)
    requires job.destBit <= k + u && 8 * s == job.sourceBit + k + u - job.destBit
    requires 0 < endBits <= 8 && k + endBits == job.destBit + job.count
    ensures job.Next(BitsOf(out)[..endBits], k)
  {
    hide BitsOf;
    hide View;
    if endBits - 1 >= u {
      FedLow(job, source[..], Waiting(slider, u), s, k);
      var rest;
      out, rest := Feed(slider, source[s], u);
      NextPrefix(job, BitsOf(out), endBits, k);
    } else {
      out := ToByte(slider);
      WaitingNext(job, slider, u, endBits, k);
    }
  }

  method MoveUp(b: bv8, up: nat, i: nat) returns (r: bv8)
    requires 0 < up <= i < 8
    ensures BitsOf(r)[i..] == BitsOf(b)[i - up..8 - up]
  {
    ShiftUpFrom(b, up, i);
    r := ToByte(b as bv32 << up);
  }

  method MoveDown(b: bv8, up: nat) returns (slider: bv32)
    requires 0 < up < 8
    ensures Fits(slider, up) && Waiting(slider, up) == BitsOf(b)[8 - up..]
  {
    ShiftDown(b, up);
    slider := b as bv32 >> (8 - up);
  }

  /** The unaligned case when the source bit is the higher one: nothing is complete yet. */
  method StartDown(low: bv8, from: bv8, i: nat, down: nat) returns (slider: bv32)
    requires 0 < down && i + down < 8
    ensures Fits(slider, 8 - down)
    ensures Waiting(slider, 8 - down) == BitsOf(low)[..i] + BitsOf(from)[i + down..]
  {
    hide LowMask;
    hide BitsOf;
    var high := ToByte(from as bv32 >> down);
    ShiftDown(from, 8 - down);
    var w := Merge(low, high, i);
    StartDownBits(BitsOf(low), BitsOf(high), BitsOf(from), i, down, BitsOf(w));
    SmallByte(w, 8 - down);
    slider := w as bv32;
    ByteOfWord(w);
  }

  lemma StartDownBits(low: seq<bool>, high: seq<bool>, from: seq<bool>, i: nat, down: nat, w: seq<bool>)
    requires |low| == |high| == |from| == 8 && 0 < down && i + down < 8
    requires high[..8 - down] == from[down..]
    requires forall j :: 8 - down <= j < 8 ==> !high[j]
    requires w == low[..i] + high[i..]
    ensures w[..8 - down] == low[..i] + from[i + down..]
    ensures forall j :: 8 - down <= j < 8 ==> !w[j]
  {
    assert from[i + down..] == from[down..][i..];
  }

  /** The common end of the unaligned case. */
  method SlideToEnd(dest: array<bv8>, d: nat, source: array<bv8>, s: nat, slider: bv32, u: nat, ghost job: Job,
                    lastWriteByte: nat, endBits: nat)
    requires dest != source && job.Valid()
    requires Sliding(job, dest[..], source[..], d, s, slider, u)
    requires d <= lastWriteByte && 0 < endBits <= 8 && 8 * lastWriteByte + endBits == job.destBit + job.count
    modifies dest
    ensures View(dest[..]) == job.Result()
  {
    hide BitsOf;
    hide View;
    var s', slider' := SlideBytes(dest, d, source, s, slider, u, lastWriteByte, job);
    var out := LastBits(source, s', slider', u, 8 * lastWriteByte, endBits, job);
    LastByte(dest, lastWriteByte, out, endBits, job);
  }

  /** Unaligned, destination bit above source bit, more than one byte to write. */
  method CopyUp(dest: array<bv8>, d: nat, i: nat, source: array<bv8>, s: nat, j: nat, ghost job: Job,
                lastWriteByte: nat, endBits: nat)
    requires dest != source && job.Valid() && View(dest[..]) == job.dest && View(source[..]) == job.source
    requires job.destBit == 8 * d + i && job.sourceBit == 8 * s + j && j < i < 8 && s < source.Length
    requires 0 < endBits <= 8 && 8 * lastWriteByte + endBits == job.destBit + job.count && d < lastWriteByte
    modifies dest
    ensures View(dest[..]) == job.Result()
  {
    hide BitsOf;
    hide View;
    var from := source[s];
    var up := MoveUp(from, i - j, i);
    var out := Merge(dest[d], up, i);
    var slider := MoveDown(from, i - j);
    UpSlides(job, dest[..], source[..], d, i, s, j, out, slider);
    ghost var before := dest[..];
    dest[d] := out;
    assert dest[..] == before[d := out];
    SlideToEnd(dest, d + 1, source, s + 1, slider, i - j, job, lastWriteByte, endBits);
  }

  lemma UpSlides(job: Job, to: seq<bv8>, from: seq<bv8>, d: nat, i: nat, s: nat, j: nat, w: bv8, slider: bv32)
    requires job.Valid() && View(to) == job.dest && View(from) == job.source
    requires job.destBit == 8 * d + i && job.sourceBit == 8 * s + j && j < i < 8 && s < |from| && d < |to|
    requires 8 * d + 8 <= job.destBit + job.count
    requires BitsOf(w) == BitsOf(to[d])[..i] + BitsOf(from[s])[j..8 - (i - j)]
    requires Fits(slider, i - j) && Waiting(slider, i - j) == BitsOf(from[s])[8 - (i - j)..]
    ensures Sliding(job, to[d := w], from, d + 1, s + 1, slider, i - j)
  {
    hide BitsOf;
    hide View;
    FirstByte(job, to, from, d, i, s, j, w);
    job.Skip(View(to), 0, d);
    Advance(job, to, d, w);
    RestOfFirst(job, from, d, i, s, j);
  }

  lemma RestOfFirst(job: Job, from: seq<bv8>, d: nat, i: nat, s: nat, j: nat)
    requires job.Valid() && View(from) == job.source && s < |from|
    requires job.destBit == 8 * d + i && job.sourceBit == 8 * s + j && j < i < 8
    ensures job.Next(BitsOf(from[s])[8 - (i - j)..], 8 * d + 8)
  {
    hide BitsOf;
    hide View;
    ViewSlice(from, s, 8 - (i - j), 8);
    job.FromSource(8 * d + 8, 8 * s + 8 - (i - j), i - j);
  }

  /** Unaligned, source bit above destination bit. */
  method CopyDown(dest: array<bv8>, d: nat, i: nat, source: array<bv8>, s: nat, j: nat, ghost job: Job,
                  lastWriteByte: nat, endBits: nat)
    requires dest != source && job.Valid() && View(dest[..]) == job.dest && View(source[..]) == job.source
    requires job.destBit == 8 * d + i && job.sourceBit == 8 * s + j && i < j < 8 && s < source.Length
    requires 0 < endBits <= 8 && 8 * lastWriteByte + endBits == job.destBit + job.count && d <= lastWriteByte
    modifies dest
    ensures View(dest[..]) == job.Result()
  {
    hide BitsOf;
    hide View;
    var slider := StartDown(dest[d], source[s], i, j - i);
    StartsLow(job, dest[..], source[..], d, i, s, j, Waiting(slider, 8 - (j - i)));
    job.Skip(View(dest[..]), 0, d);
    SlideToEnd(dest, d, source, s + 1, slider, 8 - (j - i), job, lastWriteByte, endBits);
  }

  lemma StartsLow(job: Job, to: seq<bv8>, from: seq<bv8>, d: nat, i: nat, s: nat, j: nat, waiting: seq<bool>)
    requires job.Valid() && View(to) == job.dest && View(from) == job.source
    requires job.destBit == 8 * d + i && job.sourceBit == 8 * s + j && i < j < 8
    requires d < |to| && s < |from|
    requires waiting == BitsOf(to[d])[..i] + BitsOf(from[s])[j..]
    ensures job.Next(waiting, 8 * d)
  {
    hide BitsOf;
    hide View;
    ViewSlice(to, d, 0, i);
    ViewSlice(from, s, j, 8);
    job.FirstBits(d, job.sourceBit, 8 - j);
  }

  /** Unaligned and inside one destination byte. */
  method CopyWithin(dest: array<bv8>, d: nat, i: nat, source: array<bv8>, s: nat, j: nat, count: nat, ghost job: Job)
    requires dest != source && job.Valid() && View(dest[..]) == job.dest && View(source[..]) == job.source
    requires job.destBit == 8 * d + i && job.sourceBit == 8 * s + j && j < i && i + count <= 8
    requires job.count == count && d < dest.Length && s < source.Length
    modifies dest
    ensures View(dest[..]) == job.Result()
  {
    hide BitsOf;
    hide View;
    var up := MoveUp(source[s], i - j, i);
    var w := MergeMid(dest[d], up, i, count);
    assert BitsOf(up)[i..i + count] == BitsOf(up)[i..][..count];
    assert BitsOf(source[s])[j..8 - (i - j)][..count] == BitsOf(source[s])[j..j + count];
    WithinIsResult(job, dest[..], source[..], d, i, s, j, w);
    ghost var before := dest[..];
    dest[d] := w;
    assert dest[..] == before[d := w];
  }

  method MergeMid(low: bv8, mid: bv8, i: nat, c: nat) returns (w: bv8)
    requires 0 < i < 8 && i + c <= 8
    ensures BitsOf(w) == BitsOf(low)[..i] + BitsOf(mid)[i..i + c] + BitsOf(low)[i + c..]
  {
    MergeMiddle(low, mid, i, c);
    w := Select(low, mid, MidMask(c, i));
  }

  lemma SpliceIsResult(job: Job, k: nat, i: nat, w: seq<bool>)
    requires job.Valid() && k + 8 <= |job.dest| && job.destBit == k + i && i + job.count <= 8
    requires w == job.dest[k..k + i] + job.source[job.sourceBit..job.sourceBit + job.count]
                  + job.dest[k + i + job.count..k + 8]
    ensures job.dest[..k] + w + job.dest[k + 8..] == job.Result()
  {
  }

  lemma WithinBits(to: seq<bv8>, from: seq<bv8>, d: nat, i: nat, s: nat, j: nat, c: nat, w: bv8)
    requires i + c <= 8 && j + c <= 8 && d < |to| && s < |from|
    requires BitsOf(w) == BitsOf(to[d])[..i] + BitsOf(from[s])[j..j + c] + BitsOf(to[d])[i + c..]
    ensures BitsOf(w) == View(to)[8 * d..8 * d + i] + View(from)[8 * s + j..8 * s + j + c] + View(to)[8 * d + i + c..8 * d + 8]
  {
    hide BitsOf;
    hide View;
    ViewSlice(to, d, 0, i);
    ViewSlice(to, d, i + c, 8);
    ViewSlice(from, s, j, j + c);
  }

  lemma WithinIsResult(job: Job, to: seq<bv8>, from: seq<bv8>, d: nat, i: nat, s: nat, j: nat, w: bv8)
    requires job.Valid() && View(to) == job.dest && View(from) == job.source
    requires job.destBit == 8 * d + i && job.sourceBit == 8 * s + j && i + job.count <= 8 && j + job.count <= 8
    requires d < |to| && s < |from|
    requires BitsOf(w) == BitsOf(to[d])[..i] + BitsOf(from[s])[j..j + job.count] + BitsOf(to[d])[i + job.count..]
    ensures View(to[d := w]) == job.Result()
  {
    hide *;
    WithinBits(to, from, d, i, s, j, job.count, w);
    SpliceIsResult(job, 8 * d, i, BitsOf(w));
    ViewUpdate(to, d, w);
  }

  /** _copy_bits: exactly the requested bits of the destination are replaced, and only
      source bytes that hold requested bits are read. */
  method CopyBits(dest: array<bv8>, destBit: nat, source: array<bv8>, sourceBit: nat, count: nat)
    requires dest != source && 0 < count
    requires destBit + count <= 8 * dest.Length && sourceBit + count <= 8 * source.Length
    modifies dest
    ensures View(dest[..]) == old(View(dest[..])[..destBit] + View(source[..])[sourceBit..sourceBit + count]
                                  + View(dest[..])[destBit + count..])
  {
    hide View;
    hide BitsOf;
    ghost var job := Job(View(dest[..]), destBit, View(source[..]), sourceBit, count);
    var d, s, i, j := destBit / 8, sourceBit / 8, destBit % 8, sourceBit % 8;
    if i == j {
      CopyAligned(dest, destBit, source, sourceBit, count, job);
      return;
    }
    var lastWriteBit := i + count - 1;
    if j < i && lastWriteBit < 8 {
      CopyWithin(dest, d, i, source, s, j, count, job);
    } else if j < i {
      CopyUp(dest, d, i, source, s, j, job, d + lastWriteBit / 8, lastWriteBit % 8 + 1);
    } else {
      CopyDown(dest, d, i, source, s, j, job, d + lastWriteBit / 8, lastWriteBit % 8 + 1);
    }
  }

  function Min(x: nat, y: nat): nat {
    if x <= y then x else y
  }

  /** bits with s put in place from position p on. */
  function Overwrite(bits: seq<bool>, p: nat, s: seq<bool>): (r: seq<bool>)
    requires p + |s| <= |bits|
    ensures |r| == |bits|
  {
    bits[..p] + s + bits[p + |s|..]
  }

  lemma OverwriteTwice(bits: seq<bool>, p: nat, s: seq<bool>, t: seq<bool>)
    requires p + |s| + |t| <= |bits|
    ensures Overwrite(Overwrite(bits, p, s), p + |s|, t) == Overwrite(bits, p, s + t)
  {
  }

  lemma OverwriteNothing(bits: seq<bool>, p: nat)
    requires p <= |bits|
    ensures Overwrite(bits, p, []) == bits
  {
  }

  /** bit_stream over a buffer of whole bytes, which never gets more room. */
  class Stream {
    const base: array<bv8>
    var bitNum: nat
    var bitEnd: nat
    var isDirty: bool
    var errorDetected: bool

    ghost predicate Valid()
      reads this
    {
      bitNum <= bitEnd <= 8 * base.Length && bitEnd % 8 == 0
    }

    /** The bits of the whole buffer. */
    ghost function Bits(): (r: seq<bool>)
      reads this, base
      ensures |r| == 8 * base.Length
    {
      View(base[..])
    }

    constructor (buffer: array<bv8>, byteSize: nat)
      requires byteSize <= buffer.Length
      ensures Valid() && base == buffer && bitNum == 0 && bitEnd == 8 * byteSize && !isDirty && !errorDetected
    {
      base := buffer;
      bitNum, bitEnd := 0, 8 * byteSize;
      isDirty, errorDetected := false, false;
    }

    method AdvanceToNextByte()
      requires Valid()
      modifies this`bitNum
      ensures Valid() && bitNum % 8 == 0 && old(bitNum) <= bitNum < old(bitNum) + 8
    {
      bitNum := (bitNum + 7) / 8 * 8;
    }

    /** _write_bits: as many bits as there is room for go to the current position. */
    method WriteBits(source: array<bv8>, sourceBit: nat, count: nat) returns (written: nat)
      requires Valid() && source != base && sourceBit + count <= 8 * source.Length
      modifies this`bitNum, this`isDirty, this`errorDetected, base
      ensures Valid() && written == Min(count, bitEnd - old(bitNum)) && bitNum == old(bitNum) + written
      ensures errorDetected == (old(errorDetected) || written < count)
      ensures Bits() == Overwrite(old(Bits()), old(bitNum), View(source[..])[sourceBit..sourceBit + written])
    {
      hide View;
      hide Overwrite;
      ghost var bits, src := Bits(), View(source[..]);
      written := 0;
      OverwriteNothing(bits, bitNum);
      assert src[sourceBit..sourceBit] == [];
      if count == 0 {
        return;
      }
      isDirty := true;
      var from, left := sourceBit, count;
      while true
        invariant Valid() && written <= count && left == count - written && from == sourceBit + written && left > 0
        invariant bitNum == old(bitNum) + written
        invariant errorDetected == old(errorDetected)
        invariant written > 0 ==> bitNum == bitEnd
        invariant source[..] == old(source[..])
        invariant Bits() == Overwrite(bits, old(bitNum), src[sourceBit..from])
        decreases bitEnd - bitNum
      {
        var remaining := bitEnd - bitNum;
        if remaining == 0 {
          errorDetected := true;
          return;
        }
        var n := Min(left, remaining);
        OverwriteTwice(bits, old(bitNum), src[sourceBit..from], src[from..from + n]);
        assert src[sourceBit..from] + src[from..from + n] == src[sourceBit..from + n];
        Put(source, from, n);
        if left <= remaining {
          written := written + left;
          return;
        }
        from, written, left := from + n, written + n, left - n;
      }
    }

    /** copy_bits to the current position, which moves on. */
    method Put(source: array<bv8>, from: nat, n: nat)
      requires Valid() && source != base && 0 < n && from + n <= 8 * source.Length && bitNum + n <= bitEnd
      modifies this`bitNum, base
      ensures Valid() && bitNum == old(bitNum) + n
      ensures Bits() == Overwrite(old(Bits()), old(bitNum), View(source[..])[from..from + n])
    {
      hide View;
      CopyBits(base, bitNum, source, from, n);
      bitNum := bitNum + n;
    }

    /** _read_bits: as many bits as are left are copied to the destination. */
    method ReadBits(dest: array<bv8>, destBit: nat, count: nat) returns (read: nat)
      requires Valid() && dest != base && destBit + count <= 8 * dest.Length
      modifies this`bitNum, this`errorDetected, dest
      ensures Valid() && read == Min(count, bitEnd - old(bitNum)) && bitNum == old(bitNum) + read
      ensures errorDetected == (old(errorDetected) || read < count)
      ensures View(dest[..]) == Overwrite(old(View(dest[..])), destBit, Bits()[old(bitNum)..bitNum])
    {
      hide View;
      hide Overwrite;
      ghost var was, src := View(dest[..]), Bits();
      read := 0;
      OverwriteNothing(was, destBit);
      assert src[bitNum..bitNum] == [];
      if count == 0 {
        return;
      }
      var to, left := destBit, count;
      while true
        invariant Valid() && read <= count && left == count - read && to == destBit + read && left > 0
        invariant bitNum == old(bitNum) + read
        invariant errorDetected == old(errorDetected)
        invariant read > 0 ==> bitNum == bitEnd
        invariant base[..] == old(base[..])
        invariant View(dest[..]) == Overwrite(was, destBit, src[old(bitNum)..bitNum])
        decreases bitEnd - bitNum
      {
        var remaining := bitEnd - bitNum;
        if remaining == 0 {
          errorDetected := true;
          return;
        }
        var n := Min(left, remaining);
        OverwriteTwice(was, destBit, src[old(bitNum)..bitNum], src[bitNum..bitNum + n]);
        assert src[old(bitNum)..bitNum] + src[bitNum..bitNum + n] == src[old(bitNum)..bitNum + n];
        Take(dest, to, n);
        if left <= remaining {
          read := read + left;
          return;
        }
        to, read, left := to + n, read + n, left - n;
      }
    }

    /** copy_bits from the current position, which moves on. */
    method Take(dest: array<bv8>, to: nat, n: nat)
      requires Valid() && dest != base && 0 < n && to + n <= 8 * dest.Length && bitNum + n <= bitEnd
      modifies this`bitNum, dest
      ensures Valid() && bitNum == old(bitNum) + n
      ensures View(dest[..]) == Overwrite(old(View(dest[..])), to, Bits()[old(bitNum)..bitNum])
    {
      hide View;
      CopyBits(dest, to, base, bitNum, n);
      bitNum := bitNum + n;
    }

    /** _write_integer: the low `width` binary digits of a 32-bit value. */
    method WriteInteger(value: nat, width: nat)
      requires Valid() && width <= 32
      modifies this`bitNum, this`isDirty, this`errorDetected, base
      ensures Valid() && bitNum == old(bitNum) + Min(width, bitEnd - old(bitNum))
      ensures errorDetected == (old(errorDetected) || bitEnd - old(bitNum) < width)
      ensures Bits() == Overwrite(old(Bits()), old(bitNum), NatBits(value, bitNum - old(bitNum)))
    {
      hide View;
      hide NatBits;
      hide Overwrite;
      hide WordBytes;
      ghost var was := Bits();
      var b := WordBytes(value);
      var bytes := new bv8[4](i requires 0 <= i < 4 => b[i]);
      assert bytes[..] == b;
      WordView(value);
      var n := WriteBits(bytes, 0, width);
      NatBitsPrefix(value, n, 32);
      assert NatBits(value, 32)[0..n] == NatBits(value, 32)[..n];
    }

    /** _read_integer: bits that are not there count as zero. */
    method ReadInteger(width: nat) returns (r: nat)
      requires Valid() && width <= 32
      modifies this`bitNum, this`errorDetected
      ensures Valid() && bitNum == old(bitNum) + Min(width, bitEnd - old(bitNum))
      ensures errorDetected == (old(errorDetected) || bitEnd - old(bitNum) < width)
      ensures r == FromBits(Bits()[old(bitNum)..bitNum])
    {
      hide View;
      hide FromBits;
      var bytes := new bv8[4](i => 0);
      ZeroWord(bytes[..]);
      ghost var zeros := View(bytes[..]);
      var n := ReadBits(bytes, 0, width);
      r := BytesWord(bytes[..]);
      WordFromView(bytes[..]);
      ghost var got := Bits()[old(bitNum)..bitNum];
      assert Overwrite(zeros, 0, got) == got + zeros[n..];
      FromBitsConcat(got, zeros[n..]);
      FromZeros(zeros[n..]);
    }
  }

  lemma ZeroWord(b: seq<bv8>)
    requires |b| == 4 && forall i :: 0 <= i < 4 ==> b[i] == 0
    ensures forall k :: 0 <= k < 32 ==> !View(b)[k]
  {
    forall k | 0 <= k < 32
      ensures !View(b)[k]
    {
      assert View(b)[k] == Bit(b[k / 8], k % 8);
      assert b[k / 8] == 0;
    }
  }
}
