/** The connection object: its fields, the header it writes and reads through a bit
    stream, and the datagrams and events that come out. */
module Connection {
  import opened Arith
  import opened Bits
  import opened BitStream
  import opened Endpoint
  import opened PacketHeader

  const UINT32: nat := 0x1_0000_0000
  type uint32 = n: nat | n < UINT32
  const MAX_DATAGRAM := 1536       // udp_socket::max_datagram_size

  /** (mask << shift) | isData on 32 bits. */
  function ShiftWord(mask: nat, shift: nat, isData: bool): (r: nat)
    ensures r < UINT32
  {
    var up := mask * Pow2(shift) % UINT32;
    if isData && up % 2 == 0 then up + 1 else up
  }

  lemma Pow32()
    ensures Pow2(32) == UINT32
  {
    assert Pow2(8) == 256;
    assert Pow2(16) == 65536;
    assert Pow2(24) == 16777216;
  }

  function ClearBits(n: nat): (r: seq<bool>)
    ensures |r| == n
  {
    if n == 0 then [] else [false] + ClearBits(n - 1)
  }

  lemma {:induction false} ClearBitsAreFalse(n: nat, k: nat)
    requires k < n
    ensures !ClearBits(n)[k]
  {
    if k > 0 {
      ClearBitsAreFalse(n - 1, k - 1);
    }
  }

  lemma DoubledBits(m: nat, w: nat)
    requires w > 0
    ensures NatBits(2 * m, w) == [false] + NatBits(m, w - 1)
  {
    NatBitsCons(2 * m, w);
    assert 2 * m % 2 == 0 && 2 * m / 2 == m;
  }

  lemma {:induction false} ShiftedBits(mask: nat, shift: nat, w: nat)
    requires shift <= w
    ensures NatBits(mask * Pow2(shift), w) == ClearBits(shift) + NatBits(mask, w - shift)
    decreases shift
  {
    hide NatBits;
    if shift == 0 {
      assert mask * Pow2(0) == mask;
    } else {
      var m := mask * Pow2(shift - 1);
      assert mask * Pow2(shift) == 2 * m;
      DoubledBits(m, w);
      ShiftedBits(mask, shift - 1, w - 1);
    }
  }

  lemma SetLowBit(n: nat, w: nat)
    requires w > 0 && n % 2 == 0
    ensures NatBits(n + 1, w) == [true] + NatBits(n, w)[1..]
  {
    hide NatBits;
    assert (n + 1) / 2 == n / 2 && (n + 1) % 2 == 1;
    NatBitsCons(n, w);
    NatBitsCons(n + 1, w);
  }

  lemma ShiftedMask(bits: seq<bool>, shift: nat)
    requires |bits| == 32 && shift <= 32
    ensures ClearBits(shift) + bits[..32 - shift] == ShiftMask(bits, shift, false)
  {
    var v := ClearBits(shift) + bits[..32 - shift];
    forall k | 0 <= k < 32
      ensures v[k] == ShiftMask(bits, shift, false)[k]
    {
      if k < shift {
        ClearBitsAreFalse(shift, k);
      }
    }
  }

  lemma LowBitIsParity(n: nat)
    ensures NatBits(n, 32)[0] == (n % 2 == 1)
  {
    NatBitsCons(n, 32);
  }

  /** The word operation does to the bits what ShiftMask says. */
  lemma ShiftWordBits(mask: nat, shift: nat, isData: bool)
    requires shift <= 32
    ensures NatBits(ShiftWord(mask, shift, isData), 32) == ShiftMask(NatBits(mask, 32), shift, isData)
  {
    hide NatBits;
    hide Pow2;
    var up := mask * Pow2(shift) % UINT32;
    var bits := NatBits(mask, 32);
    Pow32();
    ModMod(mask * Pow2(shift), UINT32);
    NatBitsCong(up, mask * Pow2(shift), 32);
    ShiftedBits(mask, shift, 32);
    NatBitsPrefix(mask, 32 - shift, 32);
    ShiftedMask(bits, shift);
    LowBitIsParity(up);
    if isData {
      assert ShiftMask(bits, shift, true) == [true] + ShiftMask(bits, shift, false)[1..];
      if up % 2 == 0 {
        SetLowBit(up, 32);
      } else {
        assert NatBits(up, 32) == [true] + NatBits(up, 32)[1..];
      }
    }
  }

  lemma ModMod(n: nat, m: nat)
    requires m > 0
    ensures n % m % m == n % m
  {
    DivModUnique(n % m, m, 0, n % m);
  }

  /** The bytes after the header and its padding. */
  function PayloadOf(datagram: seq<bv8>, h: Header): Payload {
    var start := 4 + if h.ackBytes <= MAX_ACK_BYTES then h.ackBytes else 0;
    if start <= |datagram| then datagram[start..] else []
  }

  /** The bytes of a packet, in numbers: the first byte, the layout of the header, and behind its
      padding the data, cut off where the packet buffer ends. */
  ghost predicate PacketBytes(d: seq<bv8>, kind: Kind, data: Payload, lastSend: nat, lastRecvd: nat,
                              lastRecvAckAck: nat, ackMask: nat)
  {
    var count := (lastRecvd - lastRecvAckAck + 7) / 8;
    && 0 <= count <= 4 && OnTheWire(View(d), kind, lastSend, lastRecvd, count, ackMask) && |d| >= 4 + count
    && d[0] as nat
       == (match kind case Data => 0 case Ping => 1 case Ack => 2 case Invalid => 3) + 4 * (lastSend % 32) + 128
    && if kind == Data then d[4 + count..] <= data && (|data| + 8 <= 1536 ==> d[4 + count..] == data)
       else d[4 + count..] == []
  }

  class TorqueConnection {
    var initialSend: uint32
    var initialRecv: uint32
    var lastSend: uint32
    var lastRecvd: uint32
    var highestAcked: uint32
    var ackMask: uint32
    var lastRecvAckAck: uint32
    const ring: array<uint32>
    var events: seq<Event>
    var outbox: seq<seq<bv8>>     // the datagrams handed to the socket

    /** The protocol state the fields stand for. */
    ghost function State(): Endpoint.State
      reads this, ring
    {
      Endpoint.State(initialSend, initialRecv, lastSend, lastRecvd, highestAcked,
                     NatBits(ackMask, 32), lastRecvAckAck, ring[..], events)
    }

    ghost predicate Valid()
      reads this, ring
    {
      State().Valid()
    }

    /** The next data packet's number still fits in 32 bits. */
    ghost predicate RoomToSend(kind: Kind)
      reads this
    {
      kind == Data ==> lastSend + 1 < UINT32
    }

    /** Whatever partial numbers arrive, the full ones fit in 32 bits. */
    ghost predicate RoomToReceive()
      reads this
    {
      lastRecvd + SEQ_RANGE <= UINT32 && highestAcked + ACK_RANGE <= UINT32
    }

    constructor (initialSendSequence: uint32)
      ensures Valid() && fresh(ring)
      ensures State() == Fresh(initialSendSequence, 0, ring[..]) && outbox == []
    {
      initialSend := initialSendSequence;
      lastRecvd := 0;
      highestAcked := initialSendSequence;
      lastSend := initialSendSequence;
      ackMask := 0;
      lastRecvAckAck := 0;
      initialRecv := 0;
      ring := new uint32[WINDOW];
      events, outbox := [], [];
      new;
      ZeroMask();
    }

    method SetInitialRecvSequence(sequence: uint32)
      requires Valid() && State() == Fresh(initialSend, 0, ring[..])
      modifies this`initialRecv, this`lastRecvd, this`lastRecvAckAck
      ensures Valid() && State() == Fresh(initialSend, sequence, ring[..])
    {
      initialRecv, lastRecvd, lastRecvAckAck := sequence, sequence, sequence;
    }

    method WindowFull() returns (full: bool)
      requires Valid()
      ensures full == State().WindowFull()
      ensures full <==> lastSend - highestAcked >= 30
    {
      full := lastSend - highestAcked >= WINDOW - 2;
    }

    /** Appends an integer field to the bits w written so far. */
    static method Emit(stream: Stream, value: nat, width: nat, ghost start: seq<bool>, ghost w: seq<bool>)
      requires stream.Valid() && width <= 32 && stream.bitNum == |w| && |w| + width <= stream.bitEnd
      requires |start| == 8 * stream.base.Length && stream.Bits() == Overwrite(start, 0, w)
      modifies stream`bitNum, stream`isDirty, stream`errorDetected, stream.base
      ensures stream.Valid() && stream.bitNum == |w| + width && stream.errorDetected == old(stream.errorDetected)
      ensures stream.Bits() == Overwrite(start, 0, w + NatBits(value, width))
    {
      hide View;
      hide NatBits;
      hide Overwrite;
      stream.WriteInteger(value, width);
      OverwriteTwice(start, 0, w, NatBits(value, width));
    }

    /** The first byte: packet type, 5 sequence bits and the packet flag. */
    static method EmitFirstByte(stream: Stream, kind: Kind, sequence: nat)
      requires stream.Valid() && stream.bitNum == 0 && stream.bitEnd >= 64
      modifies stream`bitNum, stream`isDirty, stream`errorDetected, stream.base
      ensures stream.Valid() && stream.bitNum == 8 && stream.errorDetected == old(stream.errorDetected)
      ensures stream.Bits() == Overwrite(old(stream.Bits()), 0,
                                         NatBits(KindCode(kind), 2) + NatBits(sequence, 5) + [true])
    {
      ghost var start := stream.Bits();
      OverwriteNothing(start, 0);
      OneBit();
      hide NatBits;
      hide Overwrite;
      hide View;
      hide KindCode;
      ghost var w := NatBits(KindCode(kind), 2);
      assert [] + w == w;
      Emit(stream, KindCode(kind), 2, start, []);
      Emit(stream, sequence, 5, start, w);
      Emit(stream, 1, 1, start, w + NatBits(sequence, 5));
    }

    /** The next two bytes: 6 more sequence bits and 10 bits of the ack number. */
    static method EmitNumbers(stream: Stream, sequence: nat, ack: nat, ghost start: seq<bool>, ghost w: seq<bool>)
      requires stream.Valid() && stream.bitNum == |w| == 8 && stream.bitEnd >= 64
      requires |start| == 8 * stream.base.Length && stream.Bits() == Overwrite(start, 0, w)
      modifies stream`bitNum, stream`isDirty, stream`errorDetected, stream.base
      ensures stream.Valid() && stream.bitNum == 24 && stream.errorDetected == old(stream.errorDetected)
      ensures stream.Bits() == Overwrite(start, 0, w + NatBits(sequence / 32, 6) + NatBits(ack, 10))
    {
      hide NatBits;
      hide Overwrite;
      hide View;
      Emit(stream, sequence / 32, 6, start, w);
      Emit(stream, ack, 10, start, w + NatBits(sequence / 32, 6));
    }

    /** The ack bytes: their number and as many bits of the ack word. */
    static method EmitAcks(stream: Stream, count: nat, mask: nat, ghost start: seq<bool>, ghost w: seq<bool>)
      requires stream.Valid() && stream.bitNum == |w| == 24 && stream.bitEnd >= 64 && count <= MAX_ACK_BYTES
      requires |start| == 8 * stream.base.Length && stream.Bits() == Overwrite(start, 0, w)
      modifies stream`bitNum, stream`isDirty, stream`errorDetected, stream.base
      ensures stream.Valid() && stream.bitNum == 32 + 8 * count && stream.errorDetected == old(stream.errorDetected)
      ensures stream.Bits() == Overwrite(start, 0, w + NatBits(count, 3) + NatBits(mask, 32)[..8 * count])
    {
      hide NatBits;
      hide Overwrite;
      hide View;
      Emit(stream, count, 3, start, w);            // write_ranged_uint32(count, 0, 4)
      NatBitsPrefix(mask, 8 * count, 32);
      if count > 0 {
        Emit(stream, mask, count * 8, start, w + NatBits(count, 3));
      } else {
        assert w + NatBits(count, 3) + NatBits(mask, 32)[..0] == w + NatBits(count, 3);
      }
      stream.AdvanceToNextByte();
    }

    /** The writes of write_packet_header, in order. */
    static method WriteFields(stream: Stream, kind: Kind, sequence: nat, ack: nat, count: nat, mask: nat, ghost h: Header)
      requires h.kind == kind && h.ackBytes == count <= MAX_ACK_BYTES && h.mask == NatBits(mask, 32)[..8 * count]
      requires NatBits(sequence, 5) == NatBits(h.seqBits % 32, 5)
      requires NatBits(sequence / 32, 6) == NatBits(h.seqBits / 32, 6) && NatBits(ack, 10) == NatBits(h.ackBits, 10)
      requires stream.Valid() && stream.bitNum == 0 && stream.bitEnd >= 64
      modifies stream`bitNum, stream`isDirty, stream`errorDetected, stream.base
      ensures |Encode(h)| == 27 + 8 * count
      ensures stream.Valid() && stream.bitNum == 32 + 8 * count && stream.errorDetected == old(stream.errorDetected)
      ensures stream.Bits() == Overwrite(old(stream.Bits()), 0, Encode(h))
    {
      hide NatBits;
      hide Overwrite;
      hide View;
      hide Prologue;
      hide KindCode;
      ghost var start := stream.Bits();
      EmitFirstByte(stream, kind, sequence);
      EmitNumbers(stream, sequence, ack, start, NatBits(KindCode(kind), 2) + NatBits(sequence, 5) + [true]);
      PrologueIs(h, sequence, ack);
      EmitAcks(stream, count, mask, start, Prologue(h));
    }

    /** write_packet_header. */
    method WritePacketHeader(stream: Stream, kind: Kind)
      requires Valid() && RoomToSend(kind) && kind != Invalid
      requires kind == Data ==> !State().WindowFull()
      requires stream.Valid() && stream.bitNum == 0 && stream.bitEnd >= 64
      requires stream as object != this && stream.base as object != ring
      modifies this`lastSend, ring
      modifies stream`bitNum, stream`isDirty, stream`errorDetected, stream.base
      ensures Valid() && State() == AfterSend(old(State()), kind)
      ensures var h := PacketToSend(old(State()), kind, []).OnWire();
              && stream.Valid() && stream.bitNum == 32 + 8 * h.ackBytes
              && stream.errorDetected == old(stream.errorDetected)
              && |Encode(h)| == 27 + 8 * h.ackBytes
              && stream.Bits() == Overwrite(old(stream.Bits()), 0, Encode(h))
      ensures lastSend == old(lastSend) + if kind == Data then 1 else 0
      ensures var count := (lastRecvd - lastRecvAckAck + 7) / 8;
              stream.bitNum == 32 + 8 * count && OnTheWire(stream.Bits(), kind, lastSend, lastRecvd, count, ackMask)
    {
      hide OnTheWire;
      hide NatBits;
      hide Overwrite;
      hide View;
      hide Prologue;
      hide Encode;
      ghost var before := State();
      SendKeepsValid(before, kind);
      var ackByteCount := (lastRecvd - lastRecvAckAck + 7) / 8;
      if kind == Data {
        lastSend := lastSend + 1;
      }
      HeaderFields(before, kind, lastSend);
      WriteFields(stream, kind, lastSend, lastRecvd, ackByteCount, ackMask, PacketToSend(before, kind, []).OnWire());
      HeaderFirst(old(stream.Bits()), Encode(PacketToSend(before, kind, []).OnWire()));
      SentOnTheWire(before, kind, [], stream.Bits(), ackMask);
      if kind == Data {
        ring[lastSend % 32] := lastRecvd;
      }
    }

    /** send_packet: one datagram with the header and, for a data packet, the data,
        cut off where the packet buffer ends. */
    method SendPacket(kind: Kind, data: array<bv8>)
      requires Valid() && RoomToSend(kind) && kind != Invalid
      requires kind == Data ==> !State().WindowFull()
      modifies this`lastSend, this`outbox, ring
      ensures Valid() && State() == AfterSend(old(State()), kind)
      ensures var p := PacketToSend(old(State()), kind, data[..]);
              && |outbox| == |old(outbox)| + 1 && old(outbox) <= outbox
              && IsDatagram(outbox[|outbox| - 1], p)
      ensures lastSend == old(lastSend) + if kind == Data then 1 else 0
      ensures PacketBytes(outbox[|outbox| - 1], kind, data[..], lastSend, lastRecvd, lastRecvAckAck, ackMask)
    {
      hide PacketBytes;
      hide View;
      hide Overwrite;
      hide Encode;
      hide NatBits;
      hide IsDatagram;
      hide PacketToSend;
      hide AfterSend;
      ghost var before := State();
      var buffer := new bv8[MAX_DATAGRAM];
      var stream := new Stream(buffer, MAX_DATAGRAM);
      ghost var start := stream.Bits();
      WritePacketHeader(stream, kind);
      ghost var p := PacketToSend(before, kind, data[..]);
      ghost var withHeader := stream.Bits();
      var pos := stream.bitNum;
      var n := 0;
      SendFacts(before, kind, data[..]);
      OverwriteNothing(withHeader, pos);
      assert View(p.data)[0..0] == [];
      if kind == Data {
        n := stream.WriteBits(data, 0, 8 * data.Length);
      }
      outbox := outbox + [buffer[..(stream.bitNum + 7) / 8]];
      DatagramCarries(buffer[..], start, p, n / 8);
      SentBytes(before, kind, data[..], outbox[|outbox| - 1], ackMask);
    }

    /** An integer field of the datagram; what is missing at its end reads as zero. */
    static method ReadField(stream: Stream, width: nat, ghost p: nat) returns (r: nat)
      requires stream.Valid() && width <= 32
      requires stream.bitEnd == 8 * stream.base.Length && stream.bitNum == Min(p, stream.bitEnd)
      modifies stream`bitNum, stream`errorDetected
      ensures stream.Valid() && stream.bitNum == Min(p + width, stream.bitEnd)
      ensures r == Field(stream.Bits(), p, width) < Pow2(width)
    {
      hide View;
      hide FromBits;
      FieldBound(stream.Bits(), p, width);
      ClipIs(stream.Bits(), p, width);
      r := stream.ReadInteger(width);
    }

    /** The first three bytes: type and partial numbers. */
    static method ReadNumbers(stream: Stream) returns (kind: Kind, seqBits: nat, ackBits: nat)
      requires stream.Valid() && stream.bitNum == 0 && stream.bitEnd == 8 * stream.base.Length
      modifies stream`bitNum, stream`errorDetected
      ensures stream.Valid() && stream.bitNum == Min(24, stream.bitEnd)
      ensures var h := Parse(stream.Bits()); kind == h.kind && seqBits == h.seqBits && ackBits == h.ackBits
    {
      hide View;
      hide Field;
      var code := ReadField(stream, 2, 0);
      var low := ReadField(stream, 5, 2);
      var flag := ReadField(stream, 1, 7);
      var high := ReadField(stream, 6, 8);
      ackBits := ReadField(stream, 10, 14);    // no padding bits follow
      kind, seqBits := KindOf(code), low + 32 * high;
    }

    /** The number of ack bytes, and the ack word if that number is legal. */
    static method ReadAckCount(stream: Stream) returns (count: nat)
      requires stream.Valid() && stream.bitEnd == 8 * stream.base.Length && stream.bitNum == Min(24, stream.bitEnd)
      modifies stream`bitNum, stream`errorDetected
      ensures stream.Valid() && stream.bitNum == Min(27, stream.bitEnd)
      ensures count == Parse(stream.Bits()).ackBytes
    {
      hide View;
      hide Field;
      count := ReadField(stream, 3, 24);
    }

    static method ReadAckWord(stream: Stream, count: nat) returns (word: nat)
      requires stream.Valid() && stream.bitEnd == 8 * stream.base.Length && stream.bitNum == Min(27, stream.bitEnd)
      requires count == Parse(stream.Bits()).ackBytes <= MAX_ACK_BYTES
      modifies stream`bitNum, stream`errorDetected
      ensures stream.Valid() && stream.bitNum == Min(32 + 8 * count, stream.bitEnd)
      ensures word < Pow2(8 * count) && NatBits(word, 8 * count) == Parse(stream.Bits()).mask
    {
      hide View;
      hide Field;
      hide NatBits;
      word := 0;
      FieldBound(stream.Bits(), 27, 0);
      NatBitsNone(word);
      NatBitsNone(Field(stream.Bits(), 27, 0));
      if count > 0 {
        word := ReadField(stream, count * 8, 27);
      }
      stream.AdvanceToNextByte();
    }

    /** Posts the verdicts for the newly acknowledged packets. */
    method PostVerdicts(highestAck: uint32, word: nat, ghost mask: seq<bool>)
      requires Valid() && highestAcked <= highestAck <= lastSend
      requires |mask| <= 32 && word < Pow2(|mask|) && NatBits(word, |mask|) == mask
      modifies this`events, this`lastRecvAckAck
      ensures events == old(events) + Verdicts(highestAcked, highestAck, highestAck, mask)
      ensures lastRecvAckAck == AckAckAfter(ring[..], old(lastRecvAckAck), highestAcked, highestAck, highestAck, mask)
      ensures NoneDelivered(mask, highestAck, highestAcked, highestAck) ==> lastRecvAckAck == old(lastRecvAckAck)
      ensures forall s :: IsNewest(mask, highestAck, highestAcked, highestAck, s) ==> lastRecvAckAck == ring[s % 32]
      ensures lastRecvAckAck <= lastRecvd
    {
      NewestAcked(ring[..], lastRecvAckAck, highestAcked, highestAck, highestAck, mask);
      hide NatBits;
      hide Pow2;
      hide TestBit;
      var notifyCount := highestAck - highestAcked;
      var i := 0;
      while i < notifyCount
        invariant i <= notifyCount
        invariant events == old(events) + Verdicts(highestAcked, highestAcked + i, highestAck, mask)
        invariant lastRecvAckAck
               == AckAckAfter(ring[..], old(lastRecvAckAck), highestAcked, highestAcked + i, highestAck, mask)
        invariant lastRecvAckAck <= lastRecvd
      {
        var notifyIndex := highestAcked + i + 1;
        var success := TestBit(word, (highestAck - notifyIndex) % 32);
        WordBitIsVerdict(word, mask, highestAck - notifyIndex);
        events := events + [Notify(notifyIndex, success)];
        if success {
          assert ring[..][Slot(notifyIndex)] <= lastRecvd;
          lastRecvAckAck := ring[notifyIndex % 32];
        }
        i := i + 1;
      }
    }

    /** read_packet_header: true if a data packet is to be delivered. */
    method ReadPacketHeader(stream: Stream) returns (deliver: bool)
      requires Valid() && RoomToReceive()
      requires stream.Valid() && stream.bitNum == 0 && stream.bitEnd == 8 * stream.base.Length
      modifies this`lastRecvd, this`highestAcked, this`ackMask, this`lastRecvAckAck, this`events
      modifies this`lastSend, this`outbox, ring
      modifies stream`bitNum, stream`errorDetected
      ensures Valid()
      ensures var e, h := old(State()), Parse(stream.Bits());
              && State() == AfterHeader(e, h) && deliver == Delivers(e, h)
              && (deliver ==> stream.Valid() && stream.bitNum == Min(32 + 8 * h.ackBytes, stream.bitEnd))
              && Replied(old(outbox), outbox, Receive(e, h, []).reply, State())
      ensures var h := Parse(stream.Bits());
              if Accepts(old(State()), h) && (h.kind == Ping || lastRecvd - lastRecvAckAck > 16)
              then AckSent(old(outbox), outbox, lastSend, lastRecvd, lastRecvAckAck, ackMask) else outbox == old(outbox)
      ensures !Accepts(old(State()), Parse(stream.Bits())) ==> State() == old(State()) && !deliver
    {
      hide AckSent;
      hide View;
      hide Parse;
      hide NatBits;
      hide IsDatagram;
      ghost var e, h := State(), Parse(stream.Bits());
      HeaderKeepsValid(e, h);
      var kind, seqBits, ackBits := ReadNumbers(stream);
      var sequence: uint32 := seqBits + lastRecvd / 2048 * 2048;
      if sequence < lastRecvd {
        sequence := sequence + 2048;
      }
      if sequence - lastRecvd > WINDOW - 1 {
        return false;
      }
      var highestAck: uint32 := ackBits + highestAcked / 1024 * 1024;
      if highestAck < highestAcked {
        highestAck := highestAck + 1024;
      }
      if highestAck > lastSend {
        return false;
      }
      var count := ReadAckCount(stream);
      if count > MAX_ACK_BYTES || kind == Invalid {
        return false;
      }
      var word := ReadAckWord(stream, count);
      deliver := Accept(kind, sequence, highestAck, word, h);
    }

    /** What read_packet_header does once every test has been passed. */
    method Accept(kind: Kind, sequence: uint32, highestAck: uint32, word: nat, ghost h: Header) returns (deliver: bool)
      requires Valid() && h.WellFormed() && Accepts(State(), h)
      requires kind == h.kind && sequence == FullSequence(State(), h) && highestAck == FullAck(State(), h)
      requires word < Pow2(|h.mask|) && NatBits(word, |h.mask|) == h.mask
      modifies this`lastRecvd, this`highestAcked, this`ackMask, this`lastRecvAckAck, this`events
      modifies this`lastSend, this`outbox, ring
      ensures Valid() && State() == AfterHeader(old(State()), h) && deliver == Delivers(old(State()), h)
      ensures Replied(old(outbox), outbox, Receive(old(State()), h, []).reply, State())
      ensures if h.kind == Ping || lastRecvd - lastRecvAckAck > 16
              then AckSent(old(outbox), outbox, lastSend, lastRecvd, lastRecvAckAck, ackMask) else outbox == old(outbox)
    {
      hide AckSent;
      hide NatBits;
      hide IsDatagram;
      hide Pow2;
      hide ShiftWord;
      hide ShiftMask;
      hide Verdicts;
      hide AckAckAfter;
      ghost var e := State();
      HeaderKeepsValid(e, h);
      // the loop that moves whole words up never runs: the shift is at most 31
      ShiftWordBits(ackMask, sequence - lastRecvd, kind == Data);
      ackMask := ShiftWord(ackMask, sequence - lastRecvd, kind == Data);
      PostVerdicts(highestAck, word, h.mask);
      if sequence - lastRecvAckAck > WINDOW {
        lastRecvAckAck := sequence - WINDOW;
      }
      highestAcked := highestAck;
      var previous := lastRecvd;
      lastRecvd := sequence;
      if kind == Ping || sequence - lastRecvAckAck > WINDOW / 2 {
        SendAckPacket();
      }
      deliver := previous != sequence && kind == Data;
    }

    method SendAckPacket()
      requires Valid()
      modifies this`lastSend, this`outbox, ring
      ensures Valid() && State() == old(State())
      ensures Replied(old(outbox), outbox, true, State())
      ensures AckSent(old(outbox), outbox, lastSend, lastRecvd, lastRecvAckAck, ackMask)
    {
      hide PacketBytes;
      hide IsDatagram;
      hide NatBits;
      var none := new bv8[0];
      SendPacket(Ack, none);
      assert none[..] == [];
    }

    /** read_raw_packet: the datagram goes through the header tests, and what is
        left of it becomes a packet event. */
    method ReadRawPacket(datagram: array<bv8>) returns (deliver: bool)
      requires Valid() && RoomToReceive()
      modifies this`lastRecvd, this`highestAcked, this`ackMask, this`lastRecvAckAck, this`events
      modifies this`lastSend, this`outbox, ring
      ensures Valid()
      ensures var e, h := old(State()), Parse(View(datagram[..]));
              && State() == Receive(e, h, PayloadOf(datagram[..], h)).state && deliver == Delivers(e, h)
              && Replied(old(outbox), outbox, Receive(e, h, []).reply, State())
      ensures var h := Parse(View(datagram[..]));
              if Accepts(old(State()), h) && (h.kind == Ping || lastRecvd - lastRecvAckAck > 16)
              then AckSent(old(outbox), outbox, lastSend, lastRecvd, lastRecvAckAck, ackMask) else outbox == old(outbox)
      ensures !Accepts(old(State()), Parse(View(datagram[..]))) ==> State() == old(State()) && !deliver
    {
      hide AckSent;
      hide View;
      hide Parse;
      hide NatBits;
      hide IsDatagram;
      var stream := new Stream(datagram, datagram.Length);
      ghost var e, h := State(), Parse(View(datagram[..]));
      deliver := ReadPacketHeader(stream);
      if deliver {
        var data := datagram[(stream.bitNum + 7) / 8..];
        assert data == PayloadOf(datagram[..], h);
        events := events + [Packet(lastRecvd, data)];
      }
    }
  }

  /** The endpoint after read_packet_header, before any packet event is posted. */
  ghost function AfterHeader(e: Endpoint.State, h: Header): Endpoint.State
    requires |e.ring| == WINDOW && h.WellFormed()
  {
    if !Accepts(e, h) then e
    else Receive(e, h, []).state.(events :=
      e.events + Verdicts(e.highestAcked, FullAck(e, h), FullAck(e, h), h.mask))
  }

  ghost predicate Delivers(e: Endpoint.State, h: Header)
    requires h.WellFormed()
  {
    Accepts(e, h) && FullSequence(e, h) != e.lastRecvd && h.kind == Data
  }

  /** One ack packet went out, or none. */
  ghost predicate Replied(before: seq<seq<bv8>>, after: seq<seq<bv8>>, reply: bool, e: Endpoint.State)
    requires e.Valid()
  {
    if reply then
      |after| == |before| + 1 && before <= after && IsDatagram(after[|before|], PacketToSend(e, Ack, []))
    else after == before
  }

  /** One more datagram, an ack packet with these numbers. */
  ghost predicate AckSent(before: seq<seq<bv8>>, after: seq<seq<bv8>>, lastSend: nat, lastRecvd: nat,
                          lastRecvAckAck: nat, ackMask: nat)
  {
    && |after| == |before| + 1 && before <= after
    && PacketBytes(after[|before|], Ack, [], lastSend, lastRecvd, lastRecvAckAck, ackMask)
  }

  lemma HeaderKeepsValid(e: Endpoint.State, h: Header)
    requires e.Valid() && h.WellFormed()
    ensures AfterHeader(e, h).Valid()
  {
    ReceiveKeepsValid(e, h, []);
  }

  /** A bit of the ack word that was read is the verdict the header carried. */
  lemma WordBitIsVerdict(word: nat, mask: seq<bool>, distance: nat)
    requires word < Pow2(|mask|) && NatBits(word, |mask|) == mask && distance < 32
    ensures TestBit(word, distance % 32) == VerdictBit(mask, distance)
  {
    hide NatBits;
    hide TestBit;
    hide Pow2;
    assert distance % 32 == distance;
    if distance < |mask| {
      TestBitIsBit(word, distance, |mask|);
    } else {
      TestBitAbove(word, distance, |mask|);
    }
  }

  /** d carries packet p: its header can be read back, and so can as much of its
      data as a datagram has room for. */
  ghost predicate IsDatagram(d: seq<bv8>, p: Sent) {
    && Parse(View(d)) == p.OnWire()
    && PayloadOf(d, p.OnWire()) <= p.data
    && (|p.data| + 8 <= MAX_DATAGRAM ==> PayloadOf(d, p.OnWire()) == p.data)
  }

  lemma ClipIs(bits: seq<bool>, p: nat, w: nat)
    ensures Clip(bits, p, w) == bits[Min(p, |bits|)..Min(p + w, |bits|)]
  {
  }

  lemma SendFacts(e: Endpoint.State, kind: Kind, data: Payload)
    requires e.Valid() && kind != Invalid
    ensures 0 <= e.AckBytes() <= MAX_ACK_BYTES
    ensures var p, h := PacketToSend(e, kind, data), PacketToSend(e, kind, data).OnWire();
            && h == PacketToSend(e, kind, []).OnWire() && h.WellFormed() && h.ackBytes <= MAX_ACK_BYTES
            && p.data == if kind == Data then data else []
  {
  }

  /** What is sent is what arrives: header, padding, data. */
  lemma DatagramCarries(buf: seq<bv8>, start: seq<bool>, p: Sent, k: nat)
    requires |buf| == MAX_DATAGRAM && |start| == 8 * MAX_DATAGRAM
    requires var h := p.OnWire();
             && h.WellFormed() && h.ackBytes <= MAX_ACK_BYTES && |Encode(h)| == 27 + 8 * h.ackBytes
             && k == Min(|p.data|, MAX_DATAGRAM - 4 - h.ackBytes)
             && View(buf) == Overwrite(Overwrite(start, 0, Encode(h)), 32 + 8 * h.ackBytes, View(p.data)[0..8 * k])
    ensures IsDatagram(buf[..4 + p.OnWire().ackBytes + k], p)
    ensures Encode(p.OnWire()) <= View(buf[..4 + p.OnWire().ackBytes + k])
  {
    hide View;
    hide Encode;
    hide Parse;
    var h := p.OnWire();
    var pos, sent := 32 + 8 * h.ackBytes, View(p.data)[..8 * k];
    var d := buf[..4 + h.ackBytes + k];
    ViewPrefix(buf, 4 + h.ackBytes + k);
    var pad := start[27 + 8 * h.ackBytes..pos];
    assert View(d) == Encode(h) + (pad + sent);
    ParseEncode(h, pad + sent);
    ViewSuffix(d, 4 + h.ackBytes);
    ViewPrefix(p.data, k);
    assert View(d)[pos..] == sent;
    ViewInjective(d[4 + h.ackBytes..], p.data[..k]);
  }

  lemma HeaderFirst(start: seq<bool>, h: seq<bool>)
    requires |h| <= |start|
    ensures h <= Overwrite(start, 0, h)
  {
  }

  lemma FirstByteNumber(d: seq<bv8>)
    requires |d| > 0
    ensures FromBits(View(d)[..8]) == d[0] as nat
  {
    hide *;
    ViewByte(d, 0);
    SmallByte(d[0]);
    assert View(d)[..8] == View(d)[8 * 0..8 * 0 + 8];
    ByteBits(d[0] as nat);
    ByteNumber(d[0] as nat);
  }

  lemma ByteNumber(n: nat)
    requires n < 256
    ensures FromBits(NatBits(n, 8)) == n
  {
    hide FromBits;
    hide NatBits;
    FromNatBits(n, 8);
    PowByte();
    hide Pow2;
  }

  lemma SmallByte(b: bv8)
    ensures b as nat < 256 && (b as nat) as bv8 == b
  {
  }

  /** A written packet has the layout of the wire, with the numbers of the connection that sent it. */
  lemma SentOnTheWire(e: Endpoint.State, kind: Kind, data: Payload, bits: seq<bool>, word: nat)
    requires e.Valid() && kind != Invalid && 0 <= e.AckBytes() <= MAX_ACK_BYTES
    requires Encode(PacketToSend(e, kind, data).OnWire()) <= bits && e.ackMask == NatBits(word, 32)
    ensures OnTheWire(bits, kind, if kind == Data then e.lastSend + 1 else e.lastSend, e.lastRecvd,
                      (e.lastRecvd - e.lastRecvAckAck + 7) / 8, word)
  {
    SendFacts(e, kind, data);
    hide NatBits;
    hide Encode;
    hide OnTheWire;
    NatBitsPrefix(word, 8 * e.AckBytes(), 32);
    var p := PacketToSend(e, kind, data);
    EncodeOnTheWire(p.OnWire(), bits, p.sequence, p.ack, word);
  }

  lemma PayloadFollows(e: Endpoint.State, kind: Kind, data: Payload, d: seq<bv8>)
    requires e.Valid() && kind != Invalid && 0 <= e.AckBytes() <= MAX_ACK_BYTES
    requires IsDatagram(d, PacketToSend(e, kind, data)) && |d| >= 4 + e.AckBytes()
    ensures var rest := d[4 + e.AckBytes()..];
      if kind == Data then rest <= data && (|data| + 8 <= 1536 ==> rest == data) else rest == []
  {
    SendFacts(e, kind, data);
    hide View;
    hide Parse;
  }

  lemma SentBytes(e: Endpoint.State, kind: Kind, data: Payload, d: seq<bv8>, word: nat)
    requires e.Valid() && kind != Invalid && 0 <= e.AckBytes() <= MAX_ACK_BYTES
    requires Encode(PacketToSend(e, kind, data).OnWire()) <= View(d) && e.ackMask == NatBits(word, 32)
    requires IsDatagram(d, PacketToSend(e, kind, data)) && |d| >= 4 + e.AckBytes()
    ensures PacketBytes(d, kind, data, AfterSend(e, kind).lastSend, e.lastRecvd, e.lastRecvAckAck, word)
  {
    hide *;
    SentOnTheWire(e, kind, data, View(d), word);
    FirstByteNumber(d);
    PayloadFollows(e, kind, data, d);
    SendNumbers(e, kind);
    var count := (e.lastRecvd - e.lastRecvAckAck + 7) / 8;
    NumbersToBytes(d, kind, data, AfterSend(e, kind).lastSend, e.lastRecvd, e.lastRecvAckAck, word, count);
  }

  lemma SendNumbers(e: Endpoint.State, kind: Kind)
    requires e.Valid()
    ensures |e.ring| == WINDOW
    ensures AfterSend(e, kind).lastSend == (if kind == Data then e.lastSend + 1 else e.lastSend)
    ensures e.AckBytes() == (e.lastRecvd - e.lastRecvAckAck + 7) / 8
  {
  }

  lemma NumbersToBytes(d: seq<bv8>, kind: Kind, data: Payload, lastSend: nat, lastRecvd: nat, lastRecvAckAck: nat,
                       word: nat, count: nat)
    requires count == (lastRecvd - lastRecvAckAck + 7) / 8 && OnTheWire(View(d), kind, lastSend, lastRecvd, count, word)
    requires 0 < |d| && 4 + count <= |d| && FromBits(View(d)[..8]) == d[0] as nat
    requires var rest := d[4 + count..];
      if kind == Data then rest <= data && (|data| + 8 <= 1536 ==> rest == data) else rest == []
    ensures PacketBytes(d, kind, data, lastSend, lastRecvd, lastRecvAckAck, word)
  {
    hide View;
    hide FromBits;
    hide Pow2;
  }

  lemma PrologueIs(h: Header, sequence: nat, ack: nat)
    requires NatBits(sequence, 5) == NatBits(h.seqBits % 32, 5)
    requires NatBits(sequence / 32, 6) == NatBits(h.seqBits / 32, 6) && NatBits(ack, 10) == NatBits(h.ackBits, 10)
    ensures Prologue(h) == NatBits(KindCode(h.kind), 2) + NatBits(sequence, 5) + [true]
                           + NatBits(sequence / 32, 6) + NatBits(ack, 10)
  {
  }

  lemma OneBit()
    ensures NatBits(1, 1) == [true]
  {
    NatBitsCons(1, 1);
  }

  lemma ZeroMask()
    ensures NatBits(0, 32) == seq(WINDOW, i => false)
  {
    assert 0 * Pow2(32) == 0;
    ShiftedBits(0, 32, 32);
    forall k | 0 <= k < 32
      ensures !NatBits(0, 32)[k]
    {
      ClearBitsAreFalse(32, k);
    }
  }

  /** The fields of the packet are the low bits of the connection's numbers. */
  lemma HeaderFields(e: Endpoint.State, kind: Kind, lastSend: nat)
    requires e.Valid() && kind != Invalid
    requires lastSend == if kind == Data then e.lastSend + 1 else e.lastSend
    ensures 0 <= e.AckBytes() <= MAX_ACK_BYTES
    ensures var h := PacketToSend(e, kind, []).OnWire();
            && h.kind == kind && h.ackBytes == e.AckBytes() && h.mask == e.ackMask[..8 * e.AckBytes()]
            && |h.mask| == 8 * e.AckBytes()
            && NatBits(lastSend, 5) == NatBits(h.seqBits % 32, 5)
            && NatBits(lastSend / 32, 6) == NatBits(h.seqBits / 32, 6)
            && NatBits(e.lastRecvd, 10) == NatBits(h.ackBits, 10)
  {
    hide NatBits;
    FieldPowers();
    LowBitsOf(lastSend);
    hide Pow2;
    var s := lastSend % 2048;
    NatBitsCong(lastSend, s % 32, 5);
    NatBitsCong(lastSend / 32, s / 32, 6);
    NatBitsCong(e.lastRecvd, e.lastRecvd % 1024, 10);
  }
}
