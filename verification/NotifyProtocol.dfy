/** Two endpoints exchanging packets over a channel that loses, repeats and
    reorders them, and what their delivery verdicts are worth. */
module NotifyProtocol {
  import opened Arith
  import opened Endpoint

  // A packet is rebuilt or rejected correctly while it lags by less than this.
  const STALE_SEQUENCE := SEQ_RANGE - (WINDOW - 1)
  const STALE_ACK := ACK_RANGE - MAX_UNACKED

  /** An endpoint, the packets it has in flight, and three histories the code does
      not keep: its data packets, the data sequences it accepted, and the sequences
      it first heard of through a ping or ack. */
  datatype Party = Party(
    ep: State,
    net: set<Sent>,
    sent: seq<Sent>,
    accepted: set<int>,
    overtaken: set<int>)

  datatype World = World(left: Party, right: Party) {
    function Swap(): World { World(right, left) }
  }

  // ------------------------------------------------------------------ steps

  function Send(p: Party, kind: Kind, data: Payload): Party
    requires p.ep.Valid()
  {
    var packet := PacketToSend(p.ep, kind, data);
    p.(ep := AfterSend(p.ep, kind),
       net := p.net + {packet},
       sent := if kind == Data then p.sent + [packet] else p.sent)
  }

  function Hear(p: Party, packet: Sent): Party
    requires p.ep.Valid() && packet.OnWire().WellFormed()
  {
    var o := Receive(p.ep, packet.OnWire(), packet.data);
    if !o.accepted then p
    else
      var s := o.state.lastRecvd;
      p.(ep := o.state,
         accepted := if packet.kind == Data then p.accepted + {s} else p.accepted,
         overtaken := if packet.kind != Data && s > p.ep.lastRecvd then p.overtaken + {s} else p.overtaken)
  }

  function Deliver(p: Party, packet: Sent): Party
    requires p.ep.Valid() && packet.OnWire().WellFormed()
  {
    ReceiveKeepsValid(p.ep, packet.OnWire(), packet.data);
    var o := Receive(p.ep, packet.OnWire(), packet.data);
    var q := Hear(p, packet);
    if o.reply then Send(q, Ack, []) else q
  }

  /** The bound on how late a delivered packet may be. */
  predicate InTime(e: State, packet: Sent) {
    e.lastRecvd < packet.sequence + STALE_SEQUENCE && e.highestAcked < packet.ack + STALE_ACK
  }

  datatype Step =
    | SendsData(data: Payload)
    | SendsPing
    | Receives(packet: Sent)
    | Drops(packet: Sent)

  /** One step of the left party. Receiving leaves the packet in flight, so it may
      come again; dropping removes it. */
  ghost predicate LeftStep(w: World, step: Step, w': World) {
    && w.left.ep.Valid()
    && match step
       case SendsData(data) => !w.left.ep.WindowFull() && w' == w.(left := Send(w.left, Data, data))
       case SendsPing => w' == w.(left := Send(w.left, Ping, []))
       case Receives(packet) =>
         && packet in w.right.net
         && packet.OnWire().WellFormed()
         && InTime(w.left.ep, packet)
         && w' == w.(left := Deliver(w.left, packet))
       case Drops(packet) => packet in w.left.net && w' == w.(left := w.left.(net := w.left.net - {packet}))
  }

  ghost predicate Next(w: World, w': World) {
    exists step :: LeftStep(w, step, w') || LeftStep(w.Swap(), step, w'.Swap())
  }

  /** Established connections: nothing sent, each side expects what the other will send. */
  ghost predicate Init(w: World) {
    && |w.left.ep.ring| == WINDOW && |w.right.ep.ring| == WINDOW
    && w.left.ep == Fresh(w.left.ep.initialSend, w.right.ep.initialSend, w.left.ep.ring)
    && w.right.ep == Fresh(w.right.ep.initialSend, w.left.ep.initialSend, w.right.ep.ring)
    && w.left == Party(w.left.ep, {}, [], {}, {})
    && w.right == Party(w.right.ep, {}, [], {}, {})
  }

  ghost predicate Run(ws: seq<World>) {
    && |ws| > 0
    && Init(ws[0])
    && forall i :: 0 <= i < |ws| - 1 ==> Next(ws[i], ws[i + 1])
  }

  // ---------------------------------------------- invariants, s sends and r hears

  /** The window bounds that tie the sender's numbers to the receiver's. */
  ghost predicate Window(s: State, r: State) {
    && s.initialSend == r.initialRecv
    && s.highestAcked <= r.lastRecvd <= s.lastSend
    && r.lastRecvAckAck <= s.highestAcked
  }

  /** The data packet with sequence q. */
  function SentAs(s: Party, q: int): Sent
    requires s.ep.initialSend < q <= s.ep.initialSend + |s.sent|
  {
    s.sent[q - s.ep.initialSend - 1]
  }

  /** The sender's list of data packets is complete and the ring still tells, for
      every unacknowledged one, what had been received when it left. */
  ghost predicate Records(s: Party) {
    && s.ep.lastSend == s.ep.initialSend + |s.sent|
    && (forall q :: s.ep.initialSend < q <= s.ep.lastSend ==>
          SentAs(s, q).kind == Data && SentAs(s, q).sequence == q)
  }

  ghost predicate Ring(s: Party)
    requires s.ep.Valid() && Records(s)
  {
    forall q :: s.ep.highestAcked < q <= s.ep.lastSend ==> s.ep.ring[Slot(q)] == SentAs(s, q).ack
  }

  ghost predicate InFlight(s: Party, p: Sent)
    requires Records(s)
  {
    && p.kind != Invalid
    && p.sequence <= s.ep.lastSend
    && |p.mask| % 8 == 0 && |p.mask| <= WINDOW
    && (p.kind == Data ==> s.ep.initialSend < p.sequence && p == SentAs(s, p.sequence))
  }

  /** What the receiver accepted, in its history, its ack word and its event queue. */
  ghost predicate Books(s: Party, r: Party)
    requires Records(s) && Window(s.ep, r.ep)
  {
    && AckWord(r)
    && (forall q :: q in r.accepted ==>
          s.ep.initialSend < q <= r.ep.lastRecvd && SentAs(s, q).ack <= r.ep.highestAcked)
    && (forall q :: q in r.overtaken ==> s.ep.initialSend < q <= r.ep.lastRecvd)
    && (r.ep.lastRecvd > s.ep.initialSend ==> r.ep.lastRecvd in r.accepted + r.overtaken)
  }

  /** Bit i of the ack word tells whether lastRecvd - i was accepted. */
  ghost predicate AckWord(r: Party) {
    && |r.ep.ackMask| == WINDOW
    && forall i :: 0 <= i < WINDOW ==> (r.ep.ackMask[i] <==> r.ep.lastRecvd - i in r.accepted)
  }

  ghost predicate PostedAt(e: State, i: int, q: int) {
    0 <= i < |e.events| && e.events[i].Packet? && e.events[i].sequence == q
  }

  ghost predicate Posted(e: State, q: int) {
    exists i :: PostedAt(e, i, q)
  }

  ghost predicate ReportedAt(e: State, i: int, q: int, delivered: bool) {
    0 <= i < |e.events| && e.events[i].Notify? && e.events[i].sequence == q && e.events[i].delivered == delivered
  }

  /** The packets posted are the accepted ones that nothing overtook, in order. */
  ghost predicate Posts(s: Party, r: Party)
    requires Records(s) && Window(s.ep, r.ep) && Books(s, r)
  {
    && (forall i, q :: PostedAt(r.ep, i, q) ==>
          q in r.accepted && q !in r.overtaken && r.ep.events[i].data == SentAs(s, q).data)
    && (forall q :: q in r.accepted && q !in r.overtaken ==> Posted(r.ep, q))
    && (forall i, j, p, q :: i < j && PostedAt(r.ep, i, p) && PostedAt(r.ep, j, q) ==> p < q)
  }

  /** A 1 for q means q was accepted; a 0 means q will never be posted. */
  ghost predicate Truthful(r: Party, q: int, delivered: bool) {
    if delivered then q in r.accepted else q in r.accepted ==> q in r.overtaken
  }

  /** The acknowledgements on their way back cover every sequence still unreported. */
  ghost predicate Acks(s: Party, r: Party) {
    forall p :: p in r.net ==>
      && p.ack <= r.ep.lastRecvd
      && p.ack - |p.mask| <= s.ep.highestAcked
      && forall d :: 0 <= d < |p.mask| ==> Truthful(r, p.ack - d, p.mask[d])
  }

  ghost predicate Reported(s: Party, r: Party) {
    forall i, q, delivered :: ReportedAt(s.ep, i, q, delivered) ==>
      s.ep.initialSend < q <= s.ep.highestAcked && Truthful(r, q, delivered)
  }

  ghost predicate Direction(s: Party, r: Party)
    requires s.ep.Valid()
  {
    && Window(s.ep, r.ep)
    && Records(s)
    && Ring(s)
    && (forall p :: p in s.net ==> InFlight(s, p))
    && Books(s, r)
    && Posts(s, r)
    && Acks(s, r)
    && Reported(s, r)
  }

  ghost predicate Inv(w: World) {
    && w.left.ep.Valid()
    && w.right.ep.Valid()
    && Direction(w.left, w.right)
    && Direction(w.right, w.left)
  }

  // ---------------------------------------------- partial sequence numbers

  /** Rebuilding finds the one number with the given bits in the range above the base. */
  lemma RebuildIs(base: nat, full: nat, x: nat, range: nat)
    requires 0 < range && base <= x < base + range && x % range == full % range
    ensures full % range < range
    ensures Rebuild(base, full % range, range) == x
  {
    var k := ModDifference(x, base / range * range + full % range, range) by {
      ModAddMultiple(full % range, base / range, range);
    }
    var low := base / range * range;
    assert low <= base < low + range;
    assert (full % range) / range == 0;
    assert -1 < k < 2 by {
      if k >= 2 { MulMonotone(2, k, range); }
      if k <= -1 { MulMonotone(k, -1, range); }
    }
  }

  /** The receiver gets a number back from its low bits exactly when the number is
      at most one range ahead of what the receiver has already seen. */
  lemma RebuildsExactly(base: nat, full: nat, range: nat)
    requires 0 < range
    ensures full % range < range
    ensures Rebuild(base, full % range, range) == full <==> base <= full < base + range
  {
    if base <= full < base + range {
      RebuildIs(base, full, full, range);
    }
  }

  /** For a number already passed, the rebuilt one is ahead by what is left of the range. */
  lemma RebuildOfStale(base: nat, full: nat, range: nat)
    requires 0 < range && full < base <= full + range
    ensures full % range < range
    ensures Rebuild(base, full % range, range) == full + range
  {
    ModAddMultiple(full, 1, range);
    RebuildIs(base, full, full + range, range);
  }

  /** An in-time packet is accepted exactly when neither of its numbers has been
      passed, and then both are read back as they were sent. */
  lemma ReadsBack(e: State, p: Sent)
    requires e.Valid() && InTime(e, p)
    requires p.OnWire().WellFormed() && p.kind != Invalid && |p.mask| <= WINDOW
    requires p.sequence <= e.lastRecvd + WINDOW - 1 && p.ack <= e.lastSend
    ensures Accepts(e, p.OnWire()) <==> e.lastRecvd <= p.sequence && e.highestAcked <= p.ack
    ensures Accepts(e, p.OnWire()) ==> FullSequence(e, p.OnWire()) == p.sequence && FullAck(e, p.OnWire()) == p.ack
  {
    if e.lastRecvd <= p.sequence {
      RebuildsExactly(e.lastRecvd, p.sequence, SEQ_RANGE);
    } else {
      RebuildOfStale(e.lastRecvd, p.sequence, SEQ_RANGE);
    }
    if e.highestAcked <= p.ack {
      RebuildsExactly(e.highestAcked, p.ack, ACK_RANGE);
    } else {
      RebuildOfStale(e.highestAcked, p.ack, ACK_RANGE);
    }
  }

  /** number has these low bits. */
  ghost predicate LowBits(number: nat, range: nat, bits: nat)
    requires range > 0
  {
    number % range == bits
  }

  /** s and k are the full numbers of the header: the one sequence of the receive window and the one
      acknowledgement of what was sent that have these low bits. */
  ghost predicate FullNumbers(e: State, h: Header, s: nat, k: nat) {
    && e.lastRecvd <= s <= e.lastRecvd + 31 && LowBits(s, 2048, h.seqBits)
    && e.highestAcked <= k <= e.lastSend && LowBits(k, 1024, h.ackBits)
  }

  /** A header is accepted exactly when there are such numbers, it has at most four ack bytes and a
      known type. */
  lemma AcceptsExactly(e: State, h: Header)
    requires e.Valid() && h.WellFormed()
    ensures Accepts(e, h) <==>
            h.ackBytes <= 4 && h.kind != Invalid && exists s: nat, k: nat :: FullNumbers(e, h, s, k)
    ensures Accepts(e, h) ==> FullNumbers(e, h, FullSequence(e, h), FullAck(e, h))
  {
    RebuiltBits(e.lastRecvd, h.seqBits, SEQ_RANGE);
    RebuiltBits(e.highestAcked, h.ackBits, ACK_RANGE);
    if Accepts(e, h) {
      assert FullNumbers(e, h, FullSequence(e, h), FullAck(e, h));
    }
    if exists s: nat, k: nat :: FullNumbers(e, h, s, k) {
      var s: nat, k: nat :| FullNumbers(e, h, s, k);
      FullNumbersAreRead(e, h, s, k);
    }
  }

  lemma RebuiltBits(base: nat, bits: nat, range: nat)
    requires bits < range
    ensures base <= Rebuild(base, bits, range) && LowBits(Rebuild(base, bits, range), range, bits)
  {
    var low := base / range * range;
    assert base < low + range;
    ModAddMultiple(bits, base / range, range);
    ModAddMultiple(bits + low, 1, range);
    DivModUnique(bits, range, 0, bits);
  }

  lemma FullNumbersAreRead(e: State, h: Header, s: nat, k: nat)
    requires e.Valid() && h.WellFormed() && FullNumbers(e, h, s, k)
    ensures FullSequence(e, h) == s && FullAck(e, h) == k
  {
    DivModUnique(h.seqBits, SEQ_RANGE, 0, h.seqBits);
    DivModUnique(h.ackBits, ACK_RANGE, 0, h.ackBits);
    RebuildIs(e.lastRecvd, h.seqBits, s, SEQ_RANGE);
    RebuildIs(e.highestAcked, h.ackBits, k, ACK_RANGE);
  }

  /** An accepted header by its effect: the numbers, the acknowledgement of each sequence of the
      window, the number the peer is known to have seen, the events, and whether it is answered. */
  lemma AcceptedMeans(e: State, h: Header, data: Payload, s: nat, k: nat)
    requires e.Valid() && h.WellFormed() && h.ackBytes <= 4 && h.kind != Invalid && FullNumbers(e, h, s, k)
    ensures var o := Receive(e, h, data); var f := o.state;
      && o.accepted && f.lastRecvd == s && f.highestAcked == k && f.lastSend == e.lastSend && f.ring == e.ring
      && f.initialSend == e.initialSend && f.initialRecv == e.initialRecv
      && (o.reply <==> h.kind == Ping || s - f.lastRecvAckAck > 16)
      && (NoneDelivered(h.mask, k, e.highestAcked, k) ==> f.lastRecvAckAck == Larger(e.lastRecvAckAck, s - 32))
      && (forall q :: IsNewest(h.mask, k, e.highestAcked, k, q) ==> f.lastRecvAckAck == Larger(e.ring[q % 32], s - 32))
    ensures var f := Receive(e, h, data).state;
      && |f.ackMask| == 32
      && forall d :: 0 <= d < 32 ==>
           (f.ackMask[d] <==> (d == 0 && h.kind == Data) || (d >= s - e.lastRecvd && e.ackMask[d - (s - e.lastRecvd)]))
    ensures var f, n := Receive(e, h, data).state, |e.events| + (k - e.highestAcked);
      && e.events <= f.events
      && (forall q :: e.highestAcked < q <= k ==>
            f.events[|e.events| + (q - e.highestAcked - 1)] == Notify(q, SaysDelivered(h.mask, k, q)))
      && f.events[n..] == if h.kind == Data && s != e.lastRecvd then [Packet(s, data)] else []
  {
    FullNumbersAreRead(e, h, s, k);
    NewestAcked(e.ring, e.lastRecvAckAck, e.highestAcked, k, k, h.mask);
    forall q | e.highestAcked < q <= k
      ensures Verdicts(e.highestAcked, k, k, h.mask)[q - e.highestAcked - 1] == Notify(q, SaysDelivered(h.mask, k, q))
    {
      VerdictAt(e.highestAcked, k, k, h.mask, q - e.highestAcked - 1);
    }
  }

  function Larger(x: int, y: int): int {
    if x < y then y else x
  }

  /** The bound on the sequence is the right one: a packet whose ack is good and whose sequence was
      passed less than one range ago is ignored until it is 2017 behind; from then on it is accepted,
      and read back as another. */
  lemma StaleSequence(e: State, p: Sent)
    requires e.Valid() && e.highestAcked <= p.ack <= e.lastSend
    requires p.OnWire().WellFormed() && p.kind != Invalid && |p.mask| <= WINDOW
    requires p.sequence < e.lastRecvd <= p.sequence + SEQ_RANGE
    ensures Accepts(e, p.OnWire()) <==> e.lastRecvd >= p.sequence + STALE_SEQUENCE
    ensures FullSequence(e, p.OnWire()) == p.sequence + SEQ_RANGE
  {
    RebuildOfStale(e.lastRecvd, p.sequence, SEQ_RANGE);
    RebuildsExactly(e.highestAcked, p.ack, ACK_RANGE);
  }

  /** So is the bound on the ack: with a full window outstanding, a packet whose ack was passed is
      ignored until it is 994 behind, and accepted as another from then on. */
  lemma StaleAck(e: State, p: Sent)
    requires e.Valid() && e.lastRecvd <= p.sequence <= e.lastRecvd + WINDOW - 1
    requires p.OnWire().WellFormed() && p.kind != Invalid && |p.mask| <= WINDOW
    requires p.ack < e.highestAcked <= p.ack + ACK_RANGE
    ensures Accepts(e, p.OnWire()) <==> e.lastSend >= p.ack + ACK_RANGE
    ensures e.lastSend == e.highestAcked + MAX_UNACKED ==>
            (Accepts(e, p.OnWire()) <==> e.highestAcked >= p.ack + STALE_ACK)
    ensures FullAck(e, p.OnWire()) == p.ack + ACK_RANGE
  {
    RebuildOfStale(e.highestAcked, p.ack, ACK_RANGE);
    RebuildsExactly(e.lastRecvd, p.sequence, SEQ_RANGE);
  }

  // ------------------------------------------------------- the start state

  lemma InitHolds(w: World)
    requires Init(w)
    ensures Inv(w)
  {
  }

  // ---------------------------------------------------------------- sending

  lemma PacketIsWellFormed(e: State, kind: Kind, data: Payload)
    requires e.Valid()
    ensures 0 <= e.AckBytes() <= MAX_ACK_BYTES
    ensures var p := PacketToSend(e, kind, data);
            |p.mask| % 8 == 0 && |p.mask| <= WINDOW && p.ack - |p.mask| <= e.lastRecvAckAck
  {
  }

  lemma SendKeepsRecords(s: Party, kind: Kind, data: Payload)
    requires s.ep.Valid() && Records(s)
    ensures Records(Send(s, kind, data))
    ensures forall q :: s.ep.initialSend < q <= s.ep.lastSend ==> SentAs(Send(s, kind, data), q) == SentAs(s, q)
    ensures kind == Data ==>
              SentAs(Send(s, kind, data), s.ep.lastSend + 1) == PacketToSend(s.ep, kind, data)
  {
    PacketIsWellFormed(s.ep, kind, data);
    var s' := Send(s, kind, data);
    forall q | s.ep.initialSend < q <= s.ep.lastSend
      ensures SentAs(s', q) == SentAs(s, q)
    {
    }
  }

  lemma SendKeepsRing(s: Party, kind: Kind, data: Payload)
    requires s.ep.Valid() && Records(s) && Ring(s)
    requires kind == Data ==> !s.ep.WindowFull()
    ensures Send(s, kind, data).ep.Valid() && Records(Send(s, kind, data)) && Ring(Send(s, kind, data))
  {
    SendKeepsValid(s.ep, kind);
    SendKeepsRecords(s, kind, data);
    var s' := Send(s, kind, data);
    forall q | s'.ep.highestAcked < q <= s'.ep.lastSend
      ensures s'.ep.ring[Slot(q)] == SentAs(s', q).ack
    {
      if q <= s.ep.lastSend && kind == Data {
        RingSlotsDiffer(q, s.ep.lastSend + 1);
      }
    }
  }

  lemma SenderSends(s: Party, r: Party, kind: Kind, data: Payload)
    requires s.ep.Valid() && r.ep.Valid() && Direction(s, r)
    requires kind != Invalid && (kind == Data ==> !s.ep.WindowFull())
    ensures Send(s, kind, data).ep.Valid() && Direction(Send(s, kind, data), r)
  {
    SendKeepsValid(s.ep, kind);
    SendKeepsRecords(s, kind, data);
    SendKeepsRing(s, kind, data);
    PacketIsWellFormed(s.ep, kind, data);
    var s' := Send(s, kind, data);
    forall p | p in s'.net
      ensures InFlight(s', p)
    {
      assert p in s.net || p == PacketToSend(s.ep, kind, data);
    }
    assert Books(s', r);
    assert Posts(s', r);
    assert Reported(s', r) by {
      assert forall i, q, d :: ReportedAt(s'.ep, i, q, d) ==> ReportedAt(s.ep, i, q, d);
    }
  }

  lemma SameEventsSamePosts(e: State, f: State)
    requires e.events == f.events
    ensures forall i, q :: PostedAt(e, i, q) <==> PostedAt(f, i, q)
    ensures forall q :: Posted(e, q) <==> Posted(f, q)
  {
    forall q ensures Posted(e, q) <==> Posted(f, q) {
      if i :| PostedAt(e, i, q) {
        assert PostedAt(f, i, q);
      }
      if i :| PostedAt(f, i, q) {
        assert PostedAt(e, i, q);
      }
    }
  }

  /** Bits copied from the ack word say what the word says. */
  lemma PacketIsTruthful(s: Party, r: Party, kind: Kind, data: Payload)
    requires r.ep.Valid() && Records(s) && Window(s.ep, r.ep) && Books(s, r)
    ensures var p := PacketToSend(r.ep, kind, data);
            forall d :: 0 <= d < |p.mask| ==> Truthful(r, p.ack - d, p.mask[d])
  {
  }

  lemma SendKeepsAcks(s: Party, r: Party, kind: Kind, data: Payload)
    requires r.ep.Valid() && Records(s) && Window(s.ep, r.ep) && Books(s, r) && Acks(s, r)
    ensures Acks(s, Send(r, kind, data))
  {
    PacketIsWellFormed(r.ep, kind, data);
    PacketIsTruthful(s, r, kind, data);
    var r' := Send(r, kind, data);
    forall p, d | p in r'.net && 0 <= d < |p.mask|
      ensures Truthful(r', p.ack - d, p.mask[d])
    {
      assert Truthful(r, p.ack - d, p.mask[d]);
    }
  }

  lemma SendKeepsPosts(s: Party, r: Party, kind: Kind, data: Payload)
    requires r.ep.Valid() && Records(s) && Window(s.ep, r.ep) && Books(s, r) && Posts(s, r)
    ensures Window(s.ep, Send(r, kind, data).ep) && Books(s, Send(r, kind, data)) && Posts(s, Send(r, kind, data))
  {
    SameEventsSamePosts(r.ep, Send(r, kind, data).ep);
  }

  lemma ReceiverSends(s: Party, r: Party, kind: Kind, data: Payload)
    requires s.ep.Valid() && r.ep.Valid() && Direction(s, r)
    ensures Direction(s, Send(r, kind, data))
  {
    SendKeepsPosts(s, r, kind, data);
    SendKeepsAcks(s, r, kind, data);
    forall i, q, b | ReportedAt(s.ep, i, q, b)
      ensures Truthful(Send(r, kind, data), q, b)
    {
      assert Truthful(r, q, b);
    }
  }

  // ---------------------------------------------------------------- hearing

  ghost predicate Both(s: Party, r: Party) {
    s.ep.Valid() && r.ep.Valid() && Direction(s, r) && Direction(r, s)
  }

  /** r is about to hear p, which s put in flight. */
  ghost predicate Hears(s: Party, r: Party, p: Sent) {
    Both(s, r) && p in s.net && p.OnWire().WellFormed() && InTime(r.ep, p)
  }

  ghost predicate NotPassed(r: Party, p: Sent) {
    r.ep.lastRecvd <= p.sequence && r.ep.highestAcked <= p.ack
  }

  function AckAckOf(r: Party, p: Sent): nat
    requires |r.ep.ring| == WINDOW && r.ep.highestAcked <= p.ack
  {
    AckAckAfter(r.ep.ring, r.ep.lastRecvAckAck, r.ep.highestAcked, p.ack, p.ack, p.mask)
  }

  /** The effect of an accepted packet in terms of its full numbers. */
  function Absorb(r: Party, p: Sent): Party
    requires r.ep.Valid() && NotPassed(r, p)
  {
    var x := AckAckOf(r, p);
    r.(ep := r.ep.(ackMask := ShiftMask(r.ep.ackMask, p.sequence - r.ep.lastRecvd, p.kind == Data),
                   lastRecvAckAck := if x + WINDOW < p.sequence then p.sequence - WINDOW else x,
                   highestAcked := p.ack,
                   lastRecvd := p.sequence,
                   events := r.ep.events + Verdicts(r.ep.highestAcked, p.ack, p.ack, p.mask) + PostOf(r, p)),
       accepted := if p.kind == Data then r.accepted + {p.sequence} else r.accepted,
       overtaken := if p.kind != Data && p.sequence > r.ep.lastRecvd then r.overtaken + {p.sequence} else r.overtaken)
  }

  function PostOf(r: Party, p: Sent): seq<Event> {
    if p.sequence != r.ep.lastRecvd && p.kind == Data then [Packet(p.sequence, p.data)] else []
  }

  /** An in-time packet is either ignored or read exactly as it was sent. */
  lemma HeardAsSent(s: Party, r: Party, p: Sent)
    requires Hears(s, r, p)
    ensures Hear(r, p) == if NotPassed(r, p) then Absorb(r, p) else r
    ensures Accepts(r.ep, p.OnWire()) <==> NotPassed(r, p)
  {
    ReadsBack(r.ep, p);
  }

  /** Every verdict bit the receiver looks at was transmitted. */
  lemma VerdictBitsAreThere(s: Party, r: Party, p: Sent, q: int)
    requires Acks(r, s) && p in s.net && r.ep.highestAcked < q <= p.ack
    ensures 0 <= p.ack - q < |p.mask|
    ensures Truthful(s, q, VerdictBit(p.mask, p.ack - q))
  {
    var d := p.ack - q;
    assert Truthful(s, p.ack - d, p.mask[d]);
  }

  /** The receiver's idea of what the sender knows never runs ahead of the sender. */
  lemma AckAckStaysBehind(s: Party, r: Party, p: Sent)
    requires s.ep.Valid() && r.ep.Valid()
    requires Window(s.ep, r.ep) && Window(r.ep, s.ep)
    requires Records(r) && Ring(r) && Books(r, s) && Acks(r, s)
    requires p in s.net && NotPassed(r, p)
    ensures AckAckOf(r, p) <= s.ep.highestAcked
  {
    AckAckSource(r.ep.ring, r.ep.lastRecvAckAck, r.ep.highestAcked, p.ack, p.ack, p.mask);
    var x := AckAckOf(r, p);
    if x != r.ep.lastRecvAckAck {
      var q :| r.ep.highestAcked < q <= p.ack && VerdictBit(p.mask, p.ack - q) && x == r.ep.ring[Slot(q)];
      VerdictBitsAreThere(s, r, p, q);
    }
  }

  lemma AbsorbKeepsAckWord(r: Party, p: Sent)
    requires r.ep.Valid() && NotPassed(r, p) && AckWord(r)
    requires forall q :: q in r.accepted ==> q <= r.ep.lastRecvd
    ensures AckWord(Absorb(r, p))
  {
    var r' := Absorb(r, p);
    var shift := p.sequence - r.ep.lastRecvd;
    forall i | 0 <= i < WINDOW
      ensures r'.ep.ackMask[i] <==> r'.ep.lastRecvd - i in r'.accepted
    {
      if i >= shift {
        assert r.ep.ackMask[i - shift] <==> r.ep.lastRecvd - (i - shift) in r.accepted;
      }
    }
  }

  lemma AbsorbKeepsBooks(s: Party, r: Party, p: Sent)
    requires s.ep.Valid() && r.ep.Valid() && NotPassed(r, p)
    requires Records(s) && Window(s.ep, r.ep) && Books(s, r)
    requires InFlight(s, p) && AckAckOf(r, p) <= s.ep.highestAcked
    ensures Window(s.ep, Absorb(r, p).ep) && Books(s, Absorb(r, p))
  {
    AbsorbKeepsAckWord(r, p);
  }

  /** A verdict bit that is right now stays right. */
  lemma TruthPersists(s: Party, r: Party, p: Sent, q: int, b: bool)
    requires r.ep.Valid() && Records(s) && Window(s.ep, r.ep) && Books(s, r) && InFlight(s, p)
    requires NotPassed(r, p) && q <= r.ep.lastRecvd && Truthful(r, q, b)
    ensures Truthful(Absorb(r, p), q, b)
  {
  }

  lemma AbsorbKeepsAcks(s: Party, r: Party, p: Sent)
    requires r.ep.Valid() && Records(s) && Window(s.ep, r.ep) && Books(s, r) && InFlight(s, p)
    requires NotPassed(r, p) && Acks(s, r)
    ensures Acks(s, Absorb(r, p))
  {
    var r' := Absorb(r, p);
    forall b, d | b in r'.net && 0 <= d < |b.mask|
      ensures Truthful(r', b.ack - d, b.mask[d])
    {
      assert Truthful(r, b.ack - d, b.mask[d]);
      TruthPersists(s, r, p, b.ack - d, b.mask[d]);
    }
  }

  lemma AbsorbKeepsReported(s: Party, r: Party, p: Sent)
    requires r.ep.Valid() && Records(s) && Window(s.ep, r.ep) && Books(s, r) && InFlight(s, p)
    requires NotPassed(r, p) && Reported(s, r)
    ensures Reported(s, Absorb(r, p))
  {
    forall i, q, b | ReportedAt(s.ep, i, q, b)
      ensures Truthful(Absorb(r, p), q, b)
    {
      TruthPersists(s, r, p, q, b);
    }
  }

  /** The event queue after a packet: what was there, the verdicts, then the post. */
  lemma AbsorbedEvents(r: Party, p: Sent, i: nat)
    requires r.ep.Valid() && NotPassed(r, p) && i < |Absorb(r, p).ep.events|
    ensures var old_ := r.ep.events; var n := p.ack - r.ep.highestAcked; var now := Absorb(r, p).ep.events;
            && |now| == |old_| + n + |PostOf(r, p)|
            && (i < |old_| ==> now[i] == old_[i])
            && (|old_| <= i < |old_| + n ==>
                  var q := r.ep.highestAcked + 1 + i - |old_|;
                  now[i] == Notify(q, VerdictBit(p.mask, p.ack - q)))
            && (|old_| + n <= i ==> PostOf(r, p) == [Packet(p.sequence, p.data)] && now[i] == PostOf(r, p)[0])
  {
    if |r.ep.events| <= i < |r.ep.events| + (p.ack - r.ep.highestAcked) {
      VerdictAt(r.ep.highestAcked, p.ack, p.ack, p.mask, i - |r.ep.events|);
    }
  }

  lemma AbsorbedPosts(r: Party, p: Sent)
    requires r.ep.Valid() && NotPassed(r, p)
    ensures forall i, q :: PostedAt(r.ep, i, q) ==> PostedAt(Absorb(r, p).ep, i, q)
                                                    && Absorb(r, p).ep.events[i] == r.ep.events[i]
    ensures forall i, q :: PostedAt(Absorb(r, p).ep, i, q) ==>
              PostedAt(r.ep, i, q) || (PostOf(r, p) == [Absorb(r, p).ep.events[i]] && i == |Absorb(r, p).ep.events| - 1)
    ensures PostOf(r, p) != [] ==> Posted(Absorb(r, p).ep, p.sequence)
  {
    var r' := Absorb(r, p);
    forall i, q | PostedAt(r.ep, i, q)
      ensures PostedAt(r'.ep, i, q) && r'.ep.events[i] == r.ep.events[i]
    {
      AbsorbedEvents(r, p, i);
    }
    forall i, q | PostedAt(r'.ep, i, q)
      ensures PostedAt(r.ep, i, q) || (PostOf(r, p) == [r'.ep.events[i]] && i == |r'.ep.events| - 1)
    {
      AbsorbedEvents(r, p, i);
    }
    if PostOf(r, p) != [] {
      AbsorbedEvents(r, p, |r'.ep.events| - 1);
      assert PostedAt(r'.ep, |r'.ep.events| - 1, p.sequence);
    }
  }

  lemma AbsorbKeepsPosts(s: Party, r: Party, p: Sent)
    requires s.ep.Valid() && r.ep.Valid() && NotPassed(r, p)
    requires Records(s) && Window(s.ep, r.ep) && Books(s, r) && Posts(s, r) && InFlight(s, p)
    requires Window(s.ep, Absorb(r, p).ep) && Books(s, Absorb(r, p))
    ensures Posts(s, Absorb(r, p))
  {
    var r' := Absorb(r, p);
    AbsorbedPosts(r, p);
    forall q | q in r'.accepted && q !in r'.overtaken
      ensures Posted(r'.ep, q)
    {
      if q in r.accepted {
        var i :| PostedAt(r.ep, i, q);
        assert PostedAt(r'.ep, i, q);
      }
    }
    forall i, j, q, q' | i < j && PostedAt(r'.ep, i, q) && PostedAt(r'.ep, j, q')
      ensures q < q'
    {
      assert PostedAt(r.ep, i, q);
    }
  }

  lemma ReceiverHears(s: Party, r: Party, p: Sent)
    requires Hears(s, r, p) && NotPassed(r, p)
    ensures Direction(s, Absorb(r, p))
  {
    AckAckStaysBehind(s, r, p);
    AbsorbKeepsBooks(s, r, p);
    AbsorbKeepsPosts(s, r, p);
    AbsorbKeepsAcks(s, r, p);
    AbsorbKeepsReported(s, r, p);
  }

  // The other direction: s's own packets, now better acknowledged.

  lemma NewReportsAreTruthful(s: Party, r: Party, p: Sent)
    requires s.ep.Valid() && Records(s) && Window(s.ep, r.ep) && Acks(s, r) && Reported(s, r)
    requires p in r.net && NotPassed(s, p)
    ensures Reported(Absorb(s, p), r)
  {
    forall i, q, b | ReportedAt(Absorb(s, p).ep, i, q, b)
      ensures s.ep.initialSend < q <= p.ack && Truthful(r, q, b)
    {
      AbsorbedEvents(s, p, i);
      if i < |s.ep.events| {
        assert ReportedAt(s.ep, i, q, b);
      } else {
        VerdictBitsAreThere(r, s, p, q);
      }
    }
  }

  lemma AcknowledgedSenderKeeps(s: Party, r: Party, p: Sent)
    requires s.ep.Valid() && Records(s) && Ring(s) && NotPassed(s, p)
    requires Window(s.ep, r.ep) && Books(s, r) && Posts(s, r) && Acks(s, r)
    requires p.ack <= r.ep.lastRecvd && Absorb(s, p).ep.Valid()
    ensures var s' := Absorb(s, p);
            && Window(s'.ep, r.ep) && Records(s') && Ring(s')
            && Books(s', r) && Posts(s', r) && Acks(s', r)
            && (forall b :: InFlight(s, b) ==> InFlight(s', b))
  {
    var s' := Absorb(s, p);
    assert forall q :: s.ep.initialSend < q <= s.ep.lastSend ==> SentAs(s', q) == SentAs(s, q);
  }

  lemma SenderHears(s: Party, r: Party, p: Sent)
    requires Hears(r, s, p) && NotPassed(s, p)
    ensures Absorb(s, p).ep.Valid() && Direction(Absorb(s, p), r)
  {
    HeardAsSent(r, s, p);
    ReceiveKeepsValid(s.ep, p.OnWire(), p.data);
    AcknowledgedSenderKeeps(s, r, p);
    NewReportsAreTruthful(s, r, p);
  }

  // ------------------------------------------------------------- every step

  lemma DeliverKeeps(s: Party, r: Party, p: Sent)
    requires Hears(s, r, p)
    ensures Both(s, Deliver(r, p))
  {
    HeardAsSent(s, r, p);
    if NotPassed(r, p) {
      var r' := Absorb(r, p);
      ReceiverHears(s, r, p);
      SenderHears(r, s, p);
      if Receive(r.ep, p.OnWire(), p.data).reply {
        SenderSends(r', s, Ack, []);
        ReceiverSends(s, r', Ack, []);
      }
    }
  }

  lemma DropKeeps(s: Party, r: Party, p: Sent)
    requires Both(s, r)
    ensures Both(s.(net := s.net - {p}), r)
  {
    var s' := s.(net := s.net - {p});
    DroppedSenderKeeps(s, r, p);
    DroppedReceiverKeeps(s, r, p);
  }

  lemma DroppedSenderKeeps(s: Party, r: Party, p: Sent)
    requires Both(s, r)
    ensures Direction(s.(net := s.net - {p}), r)
  {
    var s' := s.(net := s.net - {p});
    forall q | s.ep.initialSend < q <= s.ep.lastSend
      ensures SentAs(s', q) == SentAs(s, q)
    {
    }
    assert Records(s') && Ring(s');
    assert Books(s', r) && Posts(s', r) && Acks(s', r) && Reported(s', r);
  }

  lemma DroppedReceiverKeeps(s: Party, r: Party, p: Sent)
    requires Both(s, r)
    ensures Direction(r, s.(net := s.net - {p}))
  {
    var s' := s.(net := s.net - {p});
    forall b, d | b in s'.net && 0 <= d < |b.mask|
      ensures Truthful(s', b.ack - d, b.mask[d])
    {
      assert Truthful(s, b.ack - d, b.mask[d]);
    }
    assert Books(r, s') && Posts(r, s') && Acks(r, s');
    forall i, q, b | ReportedAt(r.ep, i, q, b)
      ensures Truthful(s', q, b)
    {
      assert Truthful(s, q, b);
    }
  }

  lemma LeftStepKeeps(w: World, step: Step, w': World)
    requires Both(w.left, w.right) && LeftStep(w, step, w')
    ensures Both(w'.left, w'.right)
  {
    match step
    case SendsData(data) =>
      SenderSends(w.left, w.right, Data, data);
      ReceiverSends(w.right, w.left, Data, data);
    case SendsPing =>
      SenderSends(w.left, w.right, Ping, []);
      ReceiverSends(w.right, w.left, Ping, []);
    case Receives(p) =>
      DeliverKeeps(w.right, w.left, p);
    case Drops(p) =>
      DropKeeps(w.left, w.right, p);
  }

  /** Every step of either party keeps the invariant. */
  lemma NextKeeps(w: World, w': World)
    requires Inv(w) && Next(w, w')
    ensures Inv(w')
  {
    var step :| LeftStep(w, step, w') || LeftStep(w.Swap(), step, w'.Swap());
    if LeftStep(w, step, w') {
      LeftStepKeeps(w, step, w');
    } else {
      LeftStepKeeps(w.Swap(), step, w'.Swap());
    }
  }

  lemma {:induction false} RunKeeps(ws: seq<World>, i: nat)
    requires Run(ws) && i < |ws|
    ensures Inv(ws[i])
  {
    if i == 0 {
      InitHolds(ws[0]);
    } else {
      RunKeeps(ws, i - 1);
      NextKeeps(ws[i - 1], ws[i]);
    }
  }

  // ---------------------------------------------- what holds over whole runs

  /** Nothing in a history is ever taken back. */
  ghost predicate Extends(p: Party, p': Party) {
    && p.ep.events <= p'.ep.events
    && p.sent <= p'.sent
    && p.accepted <= p'.accepted
    && p.overtaken <= p'.overtaken
    && p.ep.initialSend == p'.ep.initialSend
  }

  lemma LeftStepExtends(w: World, step: Step, w': World)
    requires Inv(w) && LeftStep(w, step, w')
    ensures Extends(w.left, w'.left) && Extends(w.right, w'.right)
  {
  }

  lemma NextExtends(w: World, w': World)
    requires Inv(w) && Next(w, w')
    ensures Extends(w.left, w'.left) && Extends(w.right, w'.right)
  {
    hide Inv;
    hide LeftStep;
    var step :| LeftStep(w, step, w') || LeftStep(w.Swap(), step, w'.Swap());
    if LeftStep(w, step, w') {
      LeftStepExtends(w, step, w');
    } else {
      SwappedInv(w);
      LeftStepExtends(w.Swap(), step, w'.Swap());
    }
  }

  lemma ExtendsIsTransitive(p: Party, q: Party, r: Party)
    requires Extends(p, q) && Extends(q, r)
    ensures Extends(p, r)
  {
  }

  lemma ExtendsItself(p: Party)
    ensures Extends(p, p)
  {
  }

  lemma RunStep(ws: seq<World>, i: nat)
    requires Run(ws) && i + 1 < |ws|
    ensures Next(ws[i], ws[i + 1])
  {
  }

  lemma {:induction false} RunExtends(ws: seq<World>, i: nat, j: nat)
    requires Run(ws) && i <= j < |ws|
    ensures Extends(ws[i].left, ws[j].left) && Extends(ws[i].right, ws[j].right)
    decreases j
  {
    hide *;
    if i == j {
      ExtendsItself(ws[i].left);
      ExtendsItself(ws[i].right);
    } else {
      RunExtends(ws, i, j - 1);
      RunKeeps(ws, j - 1);
      RunStep(ws, j - 1);
      NextExtends(ws[j - 1], ws[j]);
      ExtendsIsTransitive(ws[i].left, ws[j - 1].left, ws[j].left);
      ExtendsIsTransitive(ws[i].right, ws[j - 1].right, ws[j].right);
    }
  }

  lemma SwappedInv(w: World)
    requires Inv(w)
    ensures Inv(w.Swap())
  {
  }

  /** The two parties are interchangeable, so what is shown of the left party's
      verdicts holds of the right party's. */
  lemma SwappedRun(ws: seq<World>)
    requires Run(ws)
    ensures Run(seq(|ws|, i requires 0 <= i < |ws| => ws[i].Swap()))
  {
    var xs := seq(|ws|, i requires 0 <= i < |ws| => ws[i].Swap());
    forall i | 0 <= i < |xs| - 1
      ensures Next(xs[i], xs[i + 1])
    {
      assert Next(ws[i], ws[i + 1]);
      var step :| LeftStep(ws[i], step, ws[i + 1]) || LeftStep(ws[i].Swap(), step, ws[i + 1].Swap());
      assert ws[i].Swap().Swap() == ws[i] && ws[i + 1].Swap().Swap() == ws[i + 1];
    }
  }

  ghost predicate Reports(p: Party, q: int, delivered: bool) {
    exists i :: ReportedAt(p.ep, i, q, delivered)
  }

  lemma ReportIsTruthful(s: Party, r: Party, q: int, b: bool)
    requires s.ep.Valid() && Direction(s, r) && Reports(s, q, b)
    ensures s.ep.initialSend < q <= s.ep.highestAcked && Truthful(r, q, b)
  {
    var i :| ReportedAt(s.ep, i, q, b);
  }

  /** A "not delivered" verdict for q, reported at any moment i, means the peer posts
      q at no moment j of the run, earlier or later. */
  lemma NotDeliveredIsNeverPosted(ws: seq<World>, i: nat, j: nat, q: int)
    requires Run(ws) && i < |ws| && j < |ws| && Reports(ws[i].left, q, false)
    ensures !Posted(ws[j].right.ep, q)
  {
    var k := if i < j then j else i;
    RunKeeps(ws, k);
    RunExtends(ws, i, k);
    RunExtends(ws, j, k);
    var n :| ReportedAt(ws[i].left.ep, n, q, false);
    assert ReportedAt(ws[k].left.ep, n, q, false);
    ReportIsTruthful(ws[k].left, ws[k].right, q, false);
    if Posted(ws[j].right.ep, q) {
      var m :| PostedAt(ws[j].right.ep, m, q);
      assert PostedAt(ws[k].right.ep, m, q);
    }
  }

  /** A "delivered" verdict for q means the peer has accepted data packet q, and it
      has posted it exactly when no ping or ack numbered q got there first. */
  lemma DeliveredIsAccepted(ws: seq<World>, i: nat, q: int)
    requires Run(ws) && i < |ws| && Reports(ws[i].left, q, true)
    ensures q in ws[i].right.accepted
    ensures Posted(ws[i].right.ep, q) <==> q !in ws[i].right.overtaken
  {
    RunKeeps(ws, i);
    ReportIsTruthful(ws[i].left, ws[i].right, q, true);
    if Posted(ws[i].right.ep, q) {
      var m :| PostedAt(ws[i].right.ep, m, q);
    }
  }

  /** The same of the right party's verdicts. */
  lemma RightPartyVerdicts(ws: seq<World>, i: nat, j: nat, q: int)
    requires Run(ws) && i < |ws| && j < |ws|
    ensures Reports(ws[i].right, q, false) ==> !Posted(ws[j].left.ep, q)
    ensures Reports(ws[i].right, q, true) ==>
            q in ws[i].left.accepted && (Posted(ws[i].left.ep, q) <==> q !in ws[i].left.overtaken)
  {
    var xs := seq(|ws|, k requires 0 <= k < |ws| => ws[k].Swap());
    SwappedRun(ws);
    assert xs[i] == ws[i].Swap() && xs[j] == ws[j].Swap();
    hide Run;
    if Reports(ws[i].right, q, false) {
      NotDeliveredIsNeverPosted(xs, i, j, q);
    }
    if Reports(ws[i].right, q, true) {
      DeliveredIsAccepted(xs, i, q);
    }
  }

  /** What is posted is what was sent under that number, each number at most once
      and in increasing order. */
  lemma PostedAsSent(ws: seq<World>, i: nat, m: int, q: int)
    requires Run(ws) && i < |ws| && PostedAt(ws[i].right.ep, m, q)
    ensures var s := ws[i].left;
            && s.ep.initialSend < q <= s.ep.initialSend + |s.sent|
            && SentAs(s, q).sequence == q
            && ws[i].right.ep.events[m].data == SentAs(s, q).data
    ensures forall n, q' :: n < m && PostedAt(ws[i].right.ep, n, q') ==> q' < q
  {
    RunKeeps(ws, i);
  }

  /** The window bounds in every reachable state; the ack bytes never exceed the four
      the header has room for, and the ring still knows every unacknowledged packet. */
  lemma WindowHolds(ws: seq<World>, i: nat)
    requires Run(ws) && i < |ws|
    ensures var s, r := ws[i].left.ep, ws[i].right.ep;
            && s.highestAcked <= r.lastRecvd <= s.lastSend <= s.highestAcked + MAX_UNACKED
            && r.lastRecvAckAck <= s.highestAcked
            && 0 <= r.lastRecvd - r.lastRecvAckAck <= WINDOW
            && 0 <= r.AckBytes() <= MAX_ACK_BYTES
            && |s.ring| == WINDOW
            && s.lastSend == s.initialSend + |ws[i].left.sent|
            && forall q :: s.initialSend <= s.highestAcked < q <= s.lastSend ==> s.ring[Slot(q)] == SentAs(ws[i].left, q).ack
  {
    RunKeeps(ws, i);
  }

  /** Whenever an in-time packet arrives, it is ignored or read back exactly, and
      every verdict bit that is then looked at was transmitted. */
  lemma ArrivalsAreReadExactly(ws: seq<World>, i: nat, p: Sent)
    requires Run(ws) && i < |ws|
    requires p in ws[i].right.net && InTime(ws[i].left.ep, p)
    ensures p.OnWire().WellFormed()
    ensures var e := ws[i].left.ep;
            Accepts(e, p.OnWire()) ==>
              && FullSequence(e, p.OnWire()) == p.sequence
              && FullAck(e, p.OnWire()) == p.ack
              && p.ack - e.highestAcked <= |p.mask|
  {
    RunKeeps(ws, i);
    HeardAsSent(ws[i].right, ws[i].left, p);
    ReadsBack(ws[i].left.ep, p);
  }

  // ------------------------------------------- what the peer is known to have seen

  /** The newest "delivered" verdict is for q. */
  ghost predicate NewestReported(e: State, m: int, q: int) {
    ReportedAt(e, m, q, true) && forall n, p :: ReportedAt(e, n, p, true) ==> n <= m
  }

  ghost predicate NoneReported(e: State) {
    forall m, q :: !ReportedAt(e, m, q, true)
  }

  /** _last_recv_ack_ack is what had been received when the newest packet reported delivered left,
      or what the peer started with if there is none, but at most a window behind. */
  ghost predicate AckFloor(p: Party)
    requires Records(p)
  {
    && (NoneReported(p.ep) ==> p.ep.lastRecvAckAck == Larger(p.ep.initialRecv, p.ep.lastRecvd - 32))
    && (forall m, q :: NewestReported(p.ep, m, q) ==>
          p.ep.initialSend < q <= p.ep.lastSend
          && p.ep.lastRecvAckAck == Larger(SentAs(p, q).ack, p.ep.lastRecvd - 32))
  }

  lemma SendKeepsFloor(p: Party, kind: Kind, data: Payload)
    requires p.ep.Valid() && Records(p) && AckFloor(p)
    ensures Records(Send(p, kind, data)) && AckFloor(Send(p, kind, data))
  {
    SendKeepsRecords(p, kind, data);
    var s := Send(p, kind, data);
    assert forall m, q, b :: ReportedAt(s.ep, m, q, b) <==> ReportedAt(p.ep, m, q, b);
    assert NoneReported(s.ep) <==> NoneReported(p.ep);
    forall m, q | NewestReported(s.ep, m, q)
      ensures p.ep.initialSend < q <= p.ep.lastSend && SentAs(s, q) == SentAs(p, q) && NewestReported(p.ep, m, q)
    {
      assert NewestReported(p.ep, m, q);
    }
  }

  /** The reports of e and the ones that came after. */
  lemma ReportsAfter(e: State, f: State, mask: seq<bool>, low: nat, k: nat, m: int, q: int)
    requires low <= k && e.events <= f.events && |f.events| >= |e.events| + (k - low)
    requires forall t :: low < t <= k ==> f.events[|e.events| + (t - low - 1)] == Notify(t, SaysDelivered(mask, k, t))
    requires forall i :: |e.events| + (k - low) <= i < |f.events| ==> f.events[i].Packet?
    ensures ReportedAt(f, m, q, true) <==>
            ReportedAt(e, m, q, true) || (low < q <= k && m == |e.events| + (q - low - 1) && SaysDelivered(mask, k, q))
  {
    if |e.events| <= m < |e.events| + (k - low) {
      var t := m - |e.events| + low + 1;
      assert f.events[|e.events| + (t - low - 1)] == Notify(t, SaysDelivered(mask, k, t));
    } else if low < q <= k {
      assert f.events[|e.events| + (q - low - 1)] == Notify(q, SaysDelivered(mask, k, q));
    }
  }

  /** Which verdict is the newest after a header was accepted. */
  lemma NewestAfter(e: State, f: State, mask: seq<bool>, low: nat, k: nat)
    requires low <= k && e.events <= f.events && |f.events| >= |e.events| + (k - low)
    requires forall t :: low < t <= k ==> f.events[|e.events| + (t - low - 1)] == Notify(t, SaysDelivered(mask, k, t))
    requires forall i :: |e.events| + (k - low) <= i < |f.events| ==> f.events[i].Packet?
    ensures NoneReported(f) ==> NoneReported(e) && NoneDelivered(mask, k, low, k)
    ensures forall m, q :: NewestReported(f, m, q) ==>
              IsNewest(mask, k, low, k, q) || (NoneDelivered(mask, k, low, k) && NewestReported(e, m, q))
  {
    forall m, q
      ensures ReportedAt(f, m, q, true) <==>
              ReportedAt(e, m, q, true) || (low < q <= k && m == |e.events| + (q - low - 1) && SaysDelivered(mask, k, q))
    {
      ReportsAfter(e, f, mask, low, k, m, q);
    }
    if NoneReported(f) {
      forall t | low < t <= k
        ensures !SaysDelivered(mask, k, t)
      {
        assert !ReportedAt(f, |e.events| + (t - low - 1), t, true);
      }
    }
    forall m, q | NewestReported(f, m, q)
      ensures IsNewest(mask, k, low, k, q) || (NoneDelivered(mask, k, low, k) && NewestReported(e, m, q))
    {
      forall t | low < t <= k && SaysDelivered(mask, k, t)
        ensures |e.events| + (t - low - 1) <= m
      {
        assert ReportedAt(f, |e.events| + (t - low - 1), t, true);
      }
    }
  }

  lemma HearKeepsFloor(p: Party, packet: Sent)
    requires p.ep.Valid() && Records(p) && Ring(p) && AckFloor(p) && packet.OnWire().WellFormed()
    ensures Records(Hear(p, packet)) && AckFloor(Hear(p, packet))
  {
    var e, h := p.ep, packet.OnWire();
    if Accepts(e, h) {
      AcceptsExactly(e, h);
      var s, k := FullSequence(e, h), FullAck(e, h);
      AcceptedMeans(e, h, packet.data, s, k);
      var f := Receive(e, h, packet.data).state;
      var n := |e.events| + (k - e.highestAcked);
      assert forall i :: n <= i < |f.events| ==> f.events[i] == f.events[n..][i - n];
      NewestAfter(e, f, h.mask, e.highestAcked, k);
      var g := Hear(p, packet);
      FloorFollows(p, g, h.mask, s, k);
    }
  }

  lemma FloorFollows(p: Party, g: Party, mask: seq<bool>, s: nat, k: nat)
    requires p.ep.Valid() && Records(p) && Ring(p) && AckFloor(p) && p.ep.highestAcked <= k <= p.ep.lastSend
    requires g.sent == p.sent && g.ep.lastSend == p.ep.lastSend && g.ep.initialSend == p.ep.initialSend
    requires g.ep.initialRecv == p.ep.initialRecv && g.ep.lastRecvd == s >= p.ep.lastRecvd
    requires NoneDelivered(mask, k, p.ep.highestAcked, k) ==>
               g.ep.lastRecvAckAck == Larger(p.ep.lastRecvAckAck, s - 32)
    requires forall q :: IsNewest(mask, k, p.ep.highestAcked, k, q) ==>
               g.ep.lastRecvAckAck == Larger(p.ep.ring[q % 32], s - 32)
    requires NoneReported(g.ep) ==> NoneReported(p.ep) && NoneDelivered(mask, k, p.ep.highestAcked, k)
    requires forall m, q :: NewestReported(g.ep, m, q) ==>
               IsNewest(mask, k, p.ep.highestAcked, k, q)
               || (NoneDelivered(mask, k, p.ep.highestAcked, k) && NewestReported(p.ep, m, q))
    ensures Records(g) && AckFloor(g)
  {
    assert forall q :: p.ep.initialSend < q <= p.ep.lastSend ==> SentAs(g, q) == SentAs(p, q);
    forall m, q | NewestReported(g.ep, m, q)
      ensures p.ep.initialSend < q <= p.ep.lastSend
      ensures g.ep.lastRecvAckAck == Larger(SentAs(p, q).ack, s - 32)
    {
      if IsNewest(mask, k, p.ep.highestAcked, k, q) {
        assert p.ep.ring[Slot(q)] == SentAs(p, q).ack;
      }
    }
  }

  lemma DeliverKeepsFloor(p: Party, packet: Sent)
    requires p.ep.Valid() && Records(p) && Ring(p) && AckFloor(p) && packet.OnWire().WellFormed()
    ensures Records(Deliver(p, packet)) && AckFloor(Deliver(p, packet))
  {
    HearKeepsFloor(p, packet);
    ReceiveKeepsValid(p.ep, packet.OnWire(), packet.data);
    if Receive(p.ep, packet.OnWire(), packet.data).reply {
      SendKeepsFloor(Hear(p, packet), Ack, []);
    }
  }

  lemma StepperKeepsFloor(w: World, step: Step, w': World)
    requires LeftStep(w, step, w') && Records(w.left) && Ring(w.left) && AckFloor(w.left)
    ensures Records(w'.left) && AckFloor(w'.left) && w'.right == w.right
  {
    hide AckFloor;
    hide Ring;
    match step
    case SendsData(data) => SendKeepsFloor(w.left, Data, data);
    case SendsPing => SendKeepsFloor(w.left, Ping, []);
    case Receives(p) => DeliverKeepsFloor(w.left, p);
    case Drops(p) => DropKeepsFloor(w.left, p);
  }

  lemma DropKeepsFloor(s: Party, p: Sent)
    requires Records(s) && AckFloor(s)
    ensures var g := s.(net := s.net - {p}); Records(g) && AckFloor(g)
  {
    var g := s.(net := s.net - {p});
    assert forall q :: s.ep.initialSend < q <= s.ep.lastSend ==> SentAs(g, q) == SentAs(s, q);
  }

  lemma LeftStepKeepsFloor(w: World, step: Step, w': World)
    requires Inv(w) && LeftStep(w, step, w') && AckFloor(w.left) && AckFloor(w.right)
    ensures Inv(w') && AckFloor(w'.left) && AckFloor(w'.right)
  {
    hide AckFloor;
    hide LeftStep;
    LeftStepKeeps(w, step, w');
    StepperKeepsFloor(w, step, w');
  }

  /** In every reachable state, for both parties. */
  lemma {:induction false} AckFloorHolds(ws: seq<World>, i: nat)
    requires Run(ws) && i < |ws|
    ensures Inv(ws[i]) && AckFloor(ws[i].left) && AckFloor(ws[i].right)
  {
    if i == 0 {
      InitHolds(ws[0]);
    } else {
      AckFloorHolds(ws, i - 1);
      var w, w' := ws[i - 1], ws[i];
      RunStep(ws, i - 1);
      hide *;
      NextKeepsFloor(w, w');
    }
  }

  lemma NextKeepsFloor(w: World, w': World)
    requires Inv(w) && Next(w, w') && AckFloor(w.left) && AckFloor(w.right)
    ensures Inv(w') && AckFloor(w'.left) && AckFloor(w'.right)
  {
    hide AckFloor;
    var step :| LeftStep(w, step, w') || LeftStep(w.Swap(), step, w'.Swap());
    hide LeftStep;
    if LeftStep(w, step, w') {
      LeftStepKeepsFloor(w, step, w');
    } else {
      LeftStepKeepsFloor(w.Swap(), step, w'.Swap());
    }
  }

  // ------------------------------------------------------------- what is answered

  /** A delivered packet is answered, by one ack of all that has been received, exactly when it is
      accepted and is a ping or leaves more than half a window that the peer does not know of. */
  lemma DeliverAnswers(p: Party, packet: Sent)
    requires p.ep.Valid() && packet.OnWire().WellFormed()
    ensures var g := Deliver(p, packet);
      if Accepts(p.ep, packet.OnWire()) && (packet.kind == Ping || g.ep.lastRecvd - g.ep.lastRecvAckAck > 16)
      then exists a :: g.net == p.net + {a} && IsAck(a, g.ep) else g.net == p.net
  {
    var e, h := p.ep, packet.OnWire();
    ReceiveKeepsValid(e, h, packet.data);
    if Accepts(e, h) {
      AcceptsExactly(e, h);
      AcceptedMeans(e, h, packet.data, FullSequence(e, h), FullAck(e, h));
      var q, g := Hear(p, packet), Deliver(p, packet);
      if Receive(e, h, packet.data).reply {
        var a := PacketToSend(q.ep, Ack, []);
        assert g.net == p.net + {a} && IsAck(a, g.ep);
      }
    }
  }

  /** An ack packet that tells of everything received. */
  ghost predicate IsAck(a: Sent, e: State) {
    a.kind == Ack && a.ack == e.lastRecvd && a.sequence == e.lastSend && a.data == []
  }

  ghost predicate Answered(ws: seq<World>, j: nat, a: Sent, ack: nat)
    requires j < |ws|
  {
    a in ws[j].left.net && a.kind == Ack && a.ack == ack
  }

  /** Whenever more than half a window of what was received is not known to the peer, an ack of all
      of it has been put in flight. */
  lemma {:induction false} HalfFullWasAnswered(ws: seq<World>, i: nat) returns (j: nat, a: Sent)
    requires Run(ws) && i < |ws| && ws[i].left.ep.lastRecvd - ws[i].left.ep.lastRecvAckAck > 16
    ensures j <= i && Answered(ws, j, a, ws[i].left.ep.lastRecvd)
    decreases i
  {
    hide *;
    NothingUnknownAtFirst(ws);
    var w, w' := ws[i - 1], ws[i];
    RunStep(ws, i - 1);
    RunKeeps(ws, i - 1);
    if w'.left.ep.lastRecvd == w.left.ep.lastRecvd && w'.left.ep.lastRecvAckAck == w.left.ep.lastRecvAckAck {
      j, a := HalfFullWasAnswered(ws, i - 1);
    } else {
      a := NewNumbersAreAnswered(w, w');
      j := i;
      AnsweredHere(ws, i, a);
    }
  }

  lemma NothingUnknownAtFirst(ws: seq<World>)
    requires Run(ws)
    ensures ws[0].left.ep.lastRecvd == ws[0].left.ep.lastRecvAckAck
  {
  }

  lemma AnsweredHere(ws: seq<World>, i: nat, a: Sent)
    requires i < |ws| && a in ws[i].left.net && IsAck(a, ws[i].left.ep)
    ensures Answered(ws, i, a, ws[i].left.ep.lastRecvd)
  {
  }

  lemma NewNumbersAreAnswered(w: World, w': World) returns (a: Sent)
    requires Inv(w) && Next(w, w') && w'.left.ep.lastRecvd - w'.left.ep.lastRecvAckAck > 16
    requires w'.left.ep.lastRecvd != w.left.ep.lastRecvd || w'.left.ep.lastRecvAckAck != w.left.ep.lastRecvAckAck
    ensures a in w'.left.net && IsAck(a, w'.left.ep)
  {
    var step :| LeftStep(w, step, w') || LeftStep(w.Swap(), step, w'.Swap());
    if LeftStep(w, step, w') {
      assert step.Receives?;
      DeliverAnswers(w.left, step.packet);
      a :| w'.left.net == w.left.net + {a} && IsAck(a, w'.left.ep);
    } else {
      assert false;
    }
  }

  // -------------------------------------- each verdict once, in order

  /** The sequences reported by the verdict events of a queue, in queue order. */
  function ReportLog(events: seq<Event>): seq<nat> {
    if events == [] then []
    else
      var last := events[|events| - 1];
      ReportLog(events[..|events| - 1]) + if last.Notify? then [last.sequence] else []
  }

  function Interval(low: nat, high: nat): seq<nat>
    requires low <= high
  {
    seq(high - low, i requires 0 <= i => low + 1 + i)
  }

  ghost predicate InOrder(e: State) {
    e.initialSend <= e.highestAcked && ReportLog(e.events) == Interval(e.initialSend, e.highestAcked)
  }

  lemma {:induction false} ReportLogAppend(a: seq<Event>, b: seq<Event>)
    ensures ReportLog(a + b) == ReportLog(a) + ReportLog(b)
  {
    if b == [] {
      assert a + b == a;
    } else {
      assert (a + b)[..|a + b| - 1] == a + b[..|b| - 1];
      ReportLogAppend(a, b[..|b| - 1]);
    }
  }

  lemma {:induction false} VerdictsLog(low: nat, high: nat, ack: nat, mask: seq<bool>)
    requires low <= high <= ack
    ensures ReportLog(Verdicts(low, high, ack, mask)) == Interval(low, high)
    decreases high
  {
    if low < high {
      VerdictsLog(low, high - 1, ack, mask);
      var v := Verdicts(low, high, ack, mask);
      assert v[..|v| - 1] == Verdicts(low, high - 1, ack, mask);
    }
  }

  lemma EventsLog(old_: seq<Event>, low: nat, high: nat, mask: seq<bool>, post: seq<Event>)
    requires low <= high && (post == [] || (|post| == 1 && post[0].Packet?))
    ensures ReportLog(old_ + Verdicts(low, high, high, mask) + post) == ReportLog(old_) + Interval(low, high)
  {
    var v := Verdicts(low, high, high, mask);
    VerdictsLog(low, high, high, mask);
    ReportLogAppend(old_, v);
    ReportLogAppend(old_ + v, post);
    if post != [] {
      assert post[..|post| - 1] == [];
    }
  }

  lemma IntervalsJoin(a: nat, b: nat, c: nat)
    requires a <= b <= c
    ensures Interval(a, b) + Interval(b, c) == Interval(a, c)
  {
  }

  /** Receiving any header at all appends exactly the verdicts that are due. */
  lemma ReceiveKeepsOrder(e: State, h: Header, data: Payload)
    requires e.Valid() && h.WellFormed() && InOrder(e)
    ensures InOrder(Receive(e, h, data).state)
  {
    if Accepts(e, h) {
      var s, k := FullSequence(e, h), FullAck(e, h);
      EventsLog(e.events, e.highestAcked, k, h.mask,
                if s != e.lastRecvd && h.kind == Data then [Packet(s, data)] else []);
      IntervalsJoin(e.initialSend, e.highestAcked, k);
    }
  }

  lemma LeftStepKeepsOrder(w: World, step: Step, w': World)
    requires LeftStep(w, step, w') && InOrder(w.left.ep) && InOrder(w.right.ep)
    ensures InOrder(w'.left.ep) && InOrder(w'.right.ep)
  {
    if step.Receives? {
      ReceiveKeepsOrder(w.left.ep, step.packet.OnWire(), step.packet.data);
    }
  }

  /** In every reachable state the verdicts an endpoint has posted are for
      initialSend + 1, ..., highestAcked: each once, in this order, none missing. */
  lemma {:induction false} VerdictsInOrder(ws: seq<World>, i: nat)
    requires Run(ws) && i < |ws|
    ensures InOrder(ws[i].left.ep) && InOrder(ws[i].right.ep)
  {
    if i > 0 {
      VerdictsInOrder(ws, i - 1);
      var w, w' := ws[i - 1], ws[i];
      assert Next(w, w');
      var step :| LeftStep(w, step, w') || LeftStep(w.Swap(), step, w'.Swap());
      if LeftStep(w, step, w') {
        LeftStepKeepsOrder(w, step, w');
      } else {
        LeftStepKeepsOrder(w.Swap(), step, w'.Swap());
      }
    }
  }

  // ------------------------- channels on which no ping overtakes its data packet

  /** A ping or ack with a new number arrives only when the data packet of that
      number is no longer in flight. */
  ghost predicate Ordered(w: World, step: Step) {
    step.Receives? && step.packet.kind != Data && step.packet.sequence > w.left.ep.lastRecvd ==>
      forall d :: d in w.right.net && d.kind == Data ==> d.sequence != step.packet.sequence
  }

  ghost predicate OrderedNext(w: World, w': World) {
    exists step :: (LeftStep(w, step, w') && Ordered(w, step))
                || (LeftStep(w.Swap(), step, w'.Swap()) && Ordered(w.Swap(), step))
  }

  ghost predicate OrderedRun(ws: seq<World>) {
    Run(ws) && forall i :: 0 <= i < |ws| - 1 ==> OrderedNext(ws[i], ws[i + 1])
  }

  ghost predicate NoneLate(s: Party, r: Party) {
    forall q :: q in r.overtaken ==> q !in r.accepted && forall d :: d in s.net && d.kind == Data ==> d.sequence != q
  }

  lemma OrderedStepKeeps(w: World, step: Step, w': World)
    requires Inv(w) && LeftStep(w, step, w') && Ordered(w, step)
    requires NoneLate(w.left, w.right) && NoneLate(w.right, w.left)
    ensures NoneLate(w'.left, w'.right) && NoneLate(w'.right, w'.left)
  {
    match step
    case Receives(p) =>
      HeardAsSent(w.right, w.left, p);
      assert InFlight(w.right, p);
    case _ =>
  }

  lemma {:induction false} OrderedRunKeeps(ws: seq<World>, i: nat)
    requires OrderedRun(ws) && i < |ws|
    ensures NoneLate(ws[i].left, ws[i].right) && NoneLate(ws[i].right, ws[i].left)
  {
    if i > 0 {
      OrderedRunKeeps(ws, i - 1);
      RunKeeps(ws, i - 1);
      var w, w' := ws[i - 1], ws[i];
      assert OrderedNext(w, w');
      var step :| (LeftStep(w, step, w') && Ordered(w, step))
               || (LeftStep(w.Swap(), step, w'.Swap()) && Ordered(w.Swap(), step));
      if LeftStep(w, step, w') && Ordered(w, step) {
        OrderedStepKeeps(w, step, w');
      } else {
        OrderedStepKeeps(w.Swap(), step, w'.Swap());
      }
    }
  }

  /** Without overtaking, a verdict says exactly whether the peer posts the packet. */
  lemma VerdictIsExact(ws: seq<World>, i: nat, j: nat, q: int, delivered: bool)
    requires OrderedRun(ws) && i <= j < |ws| && Reports(ws[i].left, q, delivered)
    ensures delivered <==> Posted(ws[j].right.ep, q)
  {
    if delivered {
      OrderedRunKeeps(ws, i);
      DeliveredIsAccepted(ws, i, q);
      RunExtends(ws, i, j);
      var m :| PostedAt(ws[i].right.ep, m, q);
      assert PostedAt(ws[j].right.ep, m, q);
    } else {
      NotDeliveredIsNeverPosted(ws, i, j, q);
    }
  }

  // --------------------------------------- a ping that overtakes its data packet

  function Start(): Party {
    Party(Fresh(0, 0, seq(WINDOW, i => 0)), {}, [], {}, {})
  }

  /** The left party after sending data packet 1 and a ping. */
  function Hasty(data: Payload): Party {
    var p := Send(Start(), Data, data);
    SendKeepsValid(Start().ep, Data);
    Send(p, Ping, [])
  }

  lemma PingFirst(data: Payload)
    ensures var d, p := Sent(Data, 1, 0, [], data), Sent(Ping, 1, 0, [], []);
            && Hasty(data).net == {d, p}
            && Hasty(data).ep.Valid()
  {
  }

  /** What the right party has become after hearing the ping and then the data. */
  function Confused(): State {
    Fresh(0, 0, seq(WINDOW, i => 0)).(ackMask := ShiftMask(seq(WINDOW, i => false), 0, true), lastRecvd := 1)
  }

  lemma ReadsPing()
    ensures var p := Sent(Ping, 1, 0, [], []);
            && Start().ep.Valid() && p.OnWire().WellFormed() && InTime(Start().ep, p)
            && Receive(Start().ep, p.OnWire(), []) ==
                 Outcome(Start().ep.(ackMask := ShiftMask(Start().ep.ackMask, 1, false), lastRecvd := 1), true, true)
  {
    var e := Start().ep;
    var h := Header(Ping, 1, 0, 0, []);
    assert Sent(Ping, 1, 0, [], []).OnWire() == h;
    hide Start;
    assert FullSequence(e, h) == 1 && FullAck(e, h) == 0;
    hide Rebuild;
    hide ShiftMask;
    assert Accepts(e, h);
    assert AckAckAfter(e.ring, e.lastRecvAckAck, 0, 0, 0, []) == 0;
    assert e.events + Verdicts(0, 0, 0, []) + [] == [];
  }

  lemma NothingShifted()
    ensures ShiftMask(Start().ep.ackMask, 1, false) == Start().ep.ackMask == seq(WINDOW, i => false)
  {
  }

  lemma HearsPing()
    ensures var p := Sent(Ping, 1, 0, [], []);
            && Start().ep.Valid() && p.OnWire().WellFormed() && InTime(Start().ep, p)
            && Deliver(Start(), p).ep == Start().ep.(ackMask := seq(WINDOW, i => false), lastRecvd := 1)
  {
    ReadsPing();
    NothingShifted();
    hide Receive;
    hide ShiftMask;
    hide Start;
  }

  lemma HearsLateData(r: Party, data: Payload)
    requires r.ep == Start().ep.(ackMask := seq(WINDOW, i => false), lastRecvd := 1)
    ensures var d := Sent(Data, 1, 0, [], data);
            && r.ep.Valid() && d.OnWire().WellFormed() && InTime(r.ep, d)
            && Deliver(r, d).ep == Confused() && Confused().Valid()
  {
  }

  lemma HearsPingThenData(data: Payload)
    ensures var d, p := Sent(Data, 1, 0, [], data), Sent(Ping, 1, 0, [], []);
            && Start().ep.Valid() && d.OnWire().WellFormed() && p.OnWire().WellFormed()
            && InTime(Start().ep, p)
            && var r := Deliver(Start(), p);
               r.ep.Valid() && InTime(r.ep, d) && r.ep.events == []
               && Deliver(r, d).ep == Confused() && Deliver(r, d).ep.Valid()
  {
    HearsPing();
    HearsLateData(Deliver(Start(), Sent(Ping, 1, 0, [], [])), data);
  }

  lemma ReadsFalseVerdict(data: Payload)
    ensures Confused().Valid() && Hasty(data).ep.Valid()
    ensures var p := PacketToSend(Confused(), Ping, []);
            && p.OnWire().WellFormed() && InTime(Hasty(data).ep, p)
            && ReportedAt(Deliver(Hasty(data), p).ep, 0, 1, true)
  {
    PingFirst(data);
    var p := PacketToSend(Confused(), Ping, []);
    assert p.mask[0] && p.ack == 1 && p.sequence == 0;
    var e := Hasty(data).ep;
    assert e.lastSend == 1 && e.highestAcked == 0 && e.lastRecvd == 0 && e.events == [];
    assert Accepts(e, p.OnWire()) && FullAck(e, p.OnWire()) == 1;
    assert Verdicts(0, 1, 1, p.mask) == [Notify(1, true)];
  }

  lemma LeftIsNext(w: World, step: Step, w': World)
    requires LeftStep(w, step, w')
    ensures Next(w, w')
  {
  }

  lemma RightIsNext(w: World, step: Step, w': World)
    requires LeftStep(w.Swap(), step, w'.Swap())
    ensures Next(w, w')
  {
  }

  /** The right party after the ping, after the data, and after pinging back. */
  function Heard(data: Payload): (Party, Party, Party)
  {
    HearsPingThenData(data);
    var r1 := Deliver(Start(), Sent(Ping, 1, 0, [], []));
    var r2 := Deliver(r1, Sent(Data, 1, 0, [], data));
    (r1, r2, Send(r2, Ping, []))
  }

  lemma HastySteps(data: Payload)
    ensures Start().ep.Valid()
    ensures Next(World(Start(), Start()), World(Send(Start(), Data, data), Start()))
    ensures Next(World(Send(Start(), Data, data), Start()), World(Hasty(data), Start()))
  {
    SendKeepsValid(Start().ep, Data);
    LeftIsNext(World(Start(), Start()), SendsData(data), World(Send(Start(), Data, data), Start()));
    LeftIsNext(World(Send(Start(), Data, data), Start()), SendsPing, World(Hasty(data), Start()));
  }

  lemma HeardSteps(data: Payload)
    ensures var (r1, r2, r3) := Heard(data);
            && Next(World(Hasty(data), Start()), World(Hasty(data), r1))
            && Next(World(Hasty(data), r1), World(Hasty(data), r2))
            && Next(World(Hasty(data), r2), World(Hasty(data), r3))
            && PacketToSend(Confused(), Ping, []) in r3.net
            && (forall r :: r == r1 || r == r2 || r == r3 ==> r.ep.events == [])
  {
    PingFirst(data);
    HearsPingThenData(data);
    var l := Hasty(data);
    var (r1, r2, r3) := Heard(data);
    RightIsNext(World(l, Start()), Receives(Sent(Ping, 1, 0, [], [])), World(l, r1));
    RightIsNext(World(l, r1), Receives(Sent(Data, 1, 0, [], data)), World(l, r2));
    RightIsNext(World(l, r2), SendsPing, World(l, r3));
  }

  lemma FalseVerdictStep(data: Payload) returns (l: Party)
    ensures Next(World(Hasty(data), Heard(data).2), World(l, Heard(data).2))
    ensures Reports(l, 1, true)
  {
    ReadsFalseVerdict(data);
    HeardSteps(data);
    var q := PacketToSend(Confused(), Ping, []);
    l := Deliver(Hasty(data), q);
    LeftIsNext(World(Hasty(data), Heard(data).2), Receives(q), World(l, Heard(data).2));
    assert ReportedAt(l.ep, 0, 1, true);
  }

  lemma NothingPosted(e: State)
    requires e.events == []
    ensures !Posted(e, 1)
  {
  }

  lemma StartIsInit()
    ensures Init(World(Start(), Start())) && Start().ep.events == []
  {
  }

  /** So on an arbitrary channel "delivered" is not "posted": a run in which packet 1
      is reported delivered although the peer never posts it. */
  lemma DeliveredNeedNotBePosted(data: Payload) returns (ws: seq<World>)
    ensures Run(ws)
    ensures Reports(ws[|ws| - 1].left, 1, true)
    ensures forall i :: 0 <= i < |ws| ==> !Posted(ws[i].right.ep, 1)
  {
    hide LeftStep;
    hide Next;
    hide Init;
    hide Posted;
    hide Reports;
    hide Hasty;
    hide Heard;
    hide Start;
    hide Send;
    hide Deliver;
    StartIsInit();
    HastySteps(data);
    HeardSteps(data);
    var l := Hasty(data);
    var (r1, r2, r3) := Heard(data);
    var l' := FalseVerdictStep(data);
    NothingPosted(Start().ep);
    NothingPosted(r1.ep);
    NothingPosted(r2.ep);
    NothingPosted(r3.ep);
    ws := [World(Start(), Start()), World(Send(Start(), Data, data), Start()), World(l, Start()),
           World(l, r1), World(l, r2), World(l, r3), World(l', r3)];
  }
}
