/** One endpoint of the notify protocol as a value: what a header says, what
    sending a packet does to the endpoint, and what receiving one does. */
module Endpoint {

  const WINDOW := 32           // max_packet_window_size
  const MAX_UNACKED := 30      // a data packet may be sent while fewer are unacknowledged
  const MAX_ACK_BYTES := 4     // max_ack_byte_count
  const SEQ_RANGE := 2048      // sequence_number_window_size
  const ACK_RANGE := 1024      // ack_sequence_number_window_size

  type Payload = seq<bv8>

  /** sequence & packet_window_mask: the ring slot of a sequence number. */
  function Slot(sequence: int): (r: nat)
    ensures r < WINDOW
  {
    sequence % 32
  }

  datatype Kind = Data | Ping | Ack | Invalid

  /** Entries of the event queue the connection posts to. */
  datatype Event =
    | Notify(sequence: nat, delivered: bool)
    | Packet(sequence: nat, data: Payload)

  /** The fields a header carries on the wire: partial sequence numbers only. */
  datatype Header = Header(kind: Kind, seqBits: nat, ackBits: nat, ackBytes: nat, mask: seq<bool>) {
    predicate WellFormed() {
      && seqBits < SEQ_RANGE
      && ackBits < ACK_RANGE
      && ackBytes < 8
      && |mask| == if ackBytes <= MAX_ACK_BYTES then 8 * ackBytes else 0
    }
  }

  /** The protocol state of a connection. ackMask[i] is bit i of the ack word and
      acknowledges sequence lastRecvd - i; ring is _last_seq_recvd_at_send. */
  datatype State = State(
    initialSend: nat,
    initialRecv: nat,
    lastSend: nat,
    lastRecvd: nat,
    highestAcked: nat,
    ackMask: seq<bool>,
    lastRecvAckAck: nat,
    ring: seq<nat>,
    events: seq<Event>)
  {
    /** The invariant every operation keeps, whatever bytes arrive. */
    ghost predicate Valid() {
      && |ackMask| == WINDOW
      && |ring| == WINDOW
      && initialSend <= highestAcked <= lastSend <= highestAcked + MAX_UNACKED
      && initialRecv <= lastRecvd
      && lastRecvAckAck <= lastRecvd <= lastRecvAckAck + WINDOW
      && (forall s :: highestAcked < s <= lastSend ==> ring[Slot(s)] <= lastRecvd)
    }

    predicate WindowFull() {
      lastSend - highestAcked >= WINDOW - 2
    }

    function AckBytes(): int {
      (lastRecvd - lastRecvAckAck + 7) / 8
    }
  }

  function Fresh(initialSend: nat, initialRecv: nat, ring: seq<nat>): State {
    State(initialSend, initialRecv, initialSend, initialRecv, initialSend,
          seq(WINDOW, i => false), initialRecv, ring, [])
  }

  /** A packet as its sender sees it: full sequence numbers. */
  datatype Sent = Sent(kind: Kind, sequence: nat, ack: nat, mask: seq<bool>, data: Payload) {
    function OnWire(): Header {
      Header(kind, sequence % SEQ_RANGE, ack % ACK_RANGE, |mask| / 8, mask)
    }
  }

  // ---------------------------------------------------------------- sending

  /** write_packet_header: a data packet takes the next sequence number and
      remembers what had been received when it left. */
  function AfterSend(e: State, kind: Kind): State
    requires |e.ring| == WINDOW
  {
    if kind == Data then
      e.(lastSend := e.lastSend + 1, ring := e.ring[Slot(e.lastSend + 1) := e.lastRecvd])
    else e
  }

  function PacketToSend(e: State, kind: Kind, data: Payload): Sent
    requires |e.ackMask| == WINDOW && 0 <= e.AckBytes() <= MAX_ACK_BYTES
  {
    Sent(kind, if kind == Data then e.lastSend + 1 else e.lastSend, e.lastRecvd,
         e.ackMask[..8 * e.AckBytes()], if kind == Data then data else [])
  }

  // -------------------------------------------------------------- receiving

  /** Completes a partial number to the first full one that is not below `base`. */
  function Rebuild(base: nat, bits: nat, range: nat): (full: nat)
    requires bits < range
  {
    var x := base / range * range + bits;
    if x < base then x + range else x
  }

  function FullSequence(e: State, h: Header): nat
    requires h.WellFormed()
  {
    Rebuild(e.lastRecvd, h.seqBits, SEQ_RANGE)
  }

  function FullAck(e: State, h: Header): nat
    requires h.WellFormed()
  {
    Rebuild(e.highestAcked, h.ackBits, ACK_RANGE)
  }

  /** The tests a header must pass before it changes anything. */
  predicate Accepts(e: State, h: Header)
    requires h.WellFormed()
  {
    && FullSequence(e, h) - e.lastRecvd <= WINDOW - 1
    && FullAck(e, h) <= e.lastSend
    && h.ackBytes <= MAX_ACK_BYTES
    && h.kind != Invalid
  }

  /** The ack word after moving up by `shift`; bit 0 is set by a data packet. */
  function ShiftMask(mask: seq<bool>, shift: nat, isData: bool): (r: seq<bool>)
    ensures |r| == |mask|
  {
    seq(|mask|, i requires 0 <= i < |mask| =>
      (i == 0 && isData) || (i >= shift && mask[i - shift]))
  }

  /** The transmitted verdict for the sequence `distance` below the header's ack. */
  predicate VerdictBit(mask: seq<bool>, distance: nat) {
    distance < |mask| && mask[distance]
  }

  /** The verdict events for low+1 .. high. */
  function Verdicts(low: nat, high: nat, ack: nat, mask: seq<bool>): (r: seq<Event>)
    requires low <= high <= ack
    ensures |r| == high - low
    decreases high
  {
    if low == high then []
    else Verdicts(low, high - 1, ack, mask) + [Notify(high, VerdictBit(mask, ack - high))]
  }

  /** _last_recv_ack_ack after those verdicts: what had been received when the
      last delivered packet among them left. */
  function AckAckAfter(ring: seq<nat>, old_: nat, low: nat, high: nat, ack: nat, mask: seq<bool>): nat
    requires |ring| == WINDOW && low <= high <= ack
    decreases high
  {
    if low == high then old_
    else if VerdictBit(mask, ack - high) then ring[Slot(high)]
    else AckAckAfter(ring, old_, low, high - 1, ack, mask)
  }

  datatype Outcome = Outcome(state: State, accepted: bool, reply: bool)

  /** read_packet_header and read_raw_packet: the new state, whether the header
      was accepted, and whether an ack packet answers it. */
  function Receive(e: State, h: Header, data: Payload): Outcome
    requires |e.ring| == WINDOW && h.WellFormed()
  {
    if !Accepts(e, h) then Outcome(e, false, false)
    else
      var s := FullSequence(e, h);
      var k := FullAck(e, h);
      var ackAck := AckAckAfter(e.ring, e.lastRecvAckAck, e.highestAcked, k, k, h.mask);
      var floor := if ackAck + WINDOW < s then s - WINDOW else ackAck;
      var posted := if s != e.lastRecvd && h.kind == Data then [Packet(s, data)] else [];
      Outcome(
        e.(ackMask := ShiftMask(e.ackMask, s - e.lastRecvd, h.kind == Data),
           lastRecvAckAck := floor,
           highestAcked := k,
           lastRecvd := s,
           events := e.events + Verdicts(e.highestAcked, k, k, h.mask) + posted),
        true,
        h.kind == Ping || s - floor > WINDOW / 2)
  }

  // ------------------------------------------- what every operation keeps

  /** Distinct unacknowledged sequences never share a ring slot. */
  lemma RingSlotsDiffer(s: nat, t: nat)
    requires s < t < s + WINDOW
    ensures Slot(s) != Slot(t)
  {
  }

  lemma SendKeepsValid(e: State, kind: Kind)
    requires e.Valid()
    requires kind == Data ==> !e.WindowFull()
    ensures AfterSend(e, kind).Valid()
    ensures 0 <= e.AckBytes() <= MAX_ACK_BYTES
  {
  }

  /** _last_recv_ack_ack only ever takes its old value or a slot that was filled
      by a packet acknowledged just now. */
  lemma {:induction false} AckAckSource(ring: seq<nat>, old_: nat, low: nat, high: nat, ack: nat, mask: seq<bool>)
    requires |ring| == WINDOW && low <= high <= ack
    ensures var r := AckAckAfter(ring, old_, low, high, ack, mask);
            r == old_ || exists s :: low < s <= high && VerdictBit(mask, ack - s) && r == ring[Slot(s)]
    decreases high
  {
    if low < high && !VerdictBit(mask, ack - high) {
      AckAckSource(ring, old_, low, high - 1, ack, mask);
    }
  }

  /** Whatever a well-formed header says, receiving it keeps the endpoint valid. */
  lemma ReceiveKeepsValid(e: State, h: Header, data: Payload)
    requires e.Valid() && h.WellFormed()
    ensures Receive(e, h, data).state.Valid()
  {
    if Accepts(e, h) {
      var k := FullAck(e, h);
      AckAckSource(e.ring, e.lastRecvAckAck, e.highestAcked, k, k, h.mask);
    }
  }

  /** Each verdict event, by position. */
  lemma {:induction false} VerdictAt(low: nat, high: nat, ack: nat, mask: seq<bool>, i: nat)
    requires low <= high <= ack && i < high - low
    ensures Verdicts(low, high, ack, mask)[i] == Notify(low + 1 + i, VerdictBit(mask, ack - (low + 1 + i)))
    decreases high
  {
    if i < high - 1 - low {
      VerdictAt(low, high - 1, ack, mask, i);
    }
  }

  // ------------------------------------------------- what the numbers come to

  /** The header with this ack and mask says that s was delivered. */
  ghost predicate SaysDelivered(mask: seq<bool>, ack: nat, s: int) {
    s <= ack && ack - s < |mask| && mask[ack - s]
  }

  /** s is the newest of low + 1 .. high that is said to be delivered. */
  ghost predicate IsNewest(mask: seq<bool>, ack: nat, low: nat, high: nat, s: int) {
    low < s <= high && SaysDelivered(mask, ack, s) && forall t :: s < t <= high ==> !SaysDelivered(mask, ack, t)
  }

  ghost predicate NoneDelivered(mask: seq<bool>, ack: nat, low: nat, high: nat) {
    forall t :: low < t <= high ==> !SaysDelivered(mask, ack, t)
  }

  /** _last_recv_ack_ack becomes what had been received when the newest delivered packet left, and
      stays when none was delivered. */
  lemma {:induction false} NewestAcked(ring: seq<nat>, old_: nat, low: nat, high: nat, ack: nat, mask: seq<bool>)
    requires |ring| == WINDOW && low <= high <= ack
    ensures NoneDelivered(mask, ack, low, high) ==> AckAckAfter(ring, old_, low, high, ack, mask) == old_
    ensures forall s :: IsNewest(mask, ack, low, high, s) ==>
              AckAckAfter(ring, old_, low, high, ack, mask) == ring[s % 32]
    ensures NoneDelivered(mask, ack, low, high) || exists s :: IsNewest(mask, ack, low, high, s)
    decreases high
  {
    if low < high {
      assert VerdictBit(mask, ack - high) <==> SaysDelivered(mask, ack, high);
      NewestAcked(ring, old_, low, high - 1, ack, mask);
      if SaysDelivered(mask, ack, high) {
        assert IsNewest(mask, ack, low, high, high);
      } else {
        forall s
          ensures IsNewest(mask, ack, low, high, s) <==> IsNewest(mask, ack, low, high - 1, s)
        {
        }
        var before := high - 1;
        if exists s :: IsNewest(mask, ack, low, before, s) {
          var s :| IsNewest(mask, ack, low, before, s);
          assert IsNewest(mask, ack, low, high, s);
        }
      }
    }
  }
}
