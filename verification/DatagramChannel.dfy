/** Two connection objects and the datagrams between them: what the bytes do is a run of the
    notify protocol, so what is shown of its runs holds of the objects. */
module DatagramChannel {
  import opened Endpoint
  import opened Bits
  import opened PacketHeader
  import opened Connection
  import opened NotifyProtocol

  /** d carries p, with all of its data. */
  ghost predicate Carries(d: seq<bv8>, p: Sent) {
    IsDatagram(d, p) && PayloadOf(d, p.OnWire()) == p.data
  }

  /** A connection in state e that has handed over the datagrams box is the party p; sent are the
      packets they carry, each of which may still arrive. */
  ghost predicate Matches(e: State, box: seq<seq<bv8>>, sent: seq<Sent>, p: Party) {
    && p.ep == e && |sent| == |box|
    && (forall k :: 0 <= k < |box| ==> Carries(box[k], sent[k]) && sent[k] in p.net)
    && forall x :: x in p.sent ==> x in sent
  }

  /** What fits into the datagram is what the packet is taken to have said. */
  lemma CarriesWhatFits(d: seq<bv8>, e: State, kind: Kind, data: Payload) returns (data': Payload)
    requires e.Valid() && kind != Invalid && IsDatagram(d, PacketToSend(e, kind, data))
    ensures kind == Data ==> data' <= data && (|data| + 8 <= MAX_DATAGRAM ==> data' == data)
    ensures kind != Data ==> data' == []
    ensures Carries(d, PacketToSend(e, kind, data'))
  {
    SendFacts(e, kind, data);
    hide View;
    hide Parse;
    var p := PacketToSend(e, kind, data);
    data' := if kind == Data then PayloadOf(d, p.OnWire()) else [];
    assert PacketToSend(e, kind, data').OnWire() == p.OnWire();
  }

  lemma SentFields(e: State, data: Payload)
    requires e.Valid()
    ensures 0 <= e.AckBytes() <= MAX_ACK_BYTES
    ensures PacketToSend(e, Data, data).data == data
    ensures PacketToSend(e, Data, data).sequence == AfterSend(e, Data).lastSend
  {
  }

  /** Sending a datagram is sending a packet. */
  lemma SendMatches(e: State, box: seq<seq<bv8>>, sent: seq<Sent>, p: Party, kind: Kind, data: Payload, d: seq<bv8>)
    requires e.Valid() && Matches(e, box, sent, p) && Carries(d, PacketToSend(e, kind, data))
    ensures Matches(AfterSend(e, kind), box + [d], sent + [PacketToSend(e, kind, data)], Send(p, kind, data))
  {
    hide Carries;
    hide AfterSend;
    hide PacketToSend;
  }

  /** Reading a datagram is hearing the packet it carries, and answering it. */
  lemma ReceiveMatches(e: State, box: seq<seq<bv8>>, sent: seq<Sent>, p: Party, d: seq<bv8>, packet: Sent,
                       e': State, box': seq<seq<bv8>>)
    returns (sent': seq<Sent>)
    requires e.Valid() && Matches(e, box, sent, p) && Carries(d, packet)
    requires var h := Parse(View(d)); e' == Receive(e, h, PayloadOf(d, h)).state
    requires e'.Valid() && Replied(box, box', Receive(e, Parse(View(d)), []).reply, e')
    ensures packet.OnWire().WellFormed() && Matches(e', box', sent', Deliver(p, packet))
  {
    hide View;
    hide Parse;
    var q := Hear(p, packet);
    assert q.ep == e' && q.net == p.net;
    if Receive(e, packet.OnWire(), packet.data).reply {
      var data' := CarriesWhatFits(box'[|box|], e', Ack, []);
      SendMatches(e', box, sent, q, Ack, [], box'[|box|]);
      sent' := sent + [PacketToSend(e', Ack, [])];
      assert box' == box + [box'[|box|]];
    } else {
      sent' := sent;
    }
  }

  lemma NotEmpty(ws: seq<World>)
    requires Run(ws)
    ensures |ws| > 0
  {
  }

  lemma RunGrows(ws: seq<World>, step: Step, w: World)
    requires Run(ws) && LeftStep(ws[|ws| - 1], step, w)
    ensures Run(ws + [w])
  {
    var xs := ws + [w];
    forall i | 0 <= i < |xs| - 1
      ensures Next(xs[i], xs[i + 1])
    {
      if i < |ws| - 1 {
        assert Next(ws[i], ws[i + 1]);
      }
    }
  }

  lemma RunGrowsRight(ws: seq<World>, step: Step, w: World)
    requires Run(ws) && LeftStep(ws[|ws| - 1].Swap(), step, w.Swap())
    ensures Run(ws + [w])
  {
    var xs := ws + [w];
    forall i | 0 <= i < |xs| - 1
      ensures Next(xs[i], xs[i + 1])
    {
      if i < |ws| - 1 {
        assert Next(ws[i], ws[i + 1]);
      }
    }
  }

  /** The first world: two fresh connections, each expecting what the other will send. */
  lemma RunStarts(e: State, f: State)
    requires |e.ring| == WINDOW && |f.ring| == WINDOW
    requires e == Fresh(e.initialSend, f.initialSend, e.ring) && f == Fresh(f.initialSend, e.initialSend, f.ring)
    ensures Run([World(Party(e, {}, [], {}, {}), Party(f, {}, [], {}, {}))])
  {
  }

  lemma EventAt(events: seq<Event>, e: Event) returns (m: nat)
    requires e in events
    ensures m < |events| && events[m] == e
  {
    m :| m < |events| && events[m] == e;
  }

  lemma IndexOf(sent: seq<Sent>, x: Sent) returns (k: nat)
    requires x in sent
    ensures k < |sent| && sent[k] == x
  {
    k :| k < |sent| && sent[k] == x;
  }

  lemma SentIsData(ws: seq<World>, i: nat, m: int, q: int)
    requires Run(ws) && i < |ws| && PostedAt(ws[i].right.ep, m, q)
    ensures var s := ws[i].left;
            && s.ep.initialSend < q <= s.ep.initialSend + |s.sent|
            && SentAs(s, q) in s.sent && SentAs(s, q).kind == Data && SentAs(s, q).sequence == q
            && ws[i].right.ep.events[m].data == SentAs(s, q).data
  {
    RunKeeps(ws, i);
    PostedAsSent(ws, i, m, q);
    hide Run;
  }

  lemma CarriedAt(e: State, box: seq<seq<bv8>>, sent: seq<Sent>, p: Party, k: nat)
    requires Matches(e, box, sent, p) && k < |sent|
    ensures k < |box| && PayloadOf(box[k], Parse(View(box[k]))) == sent[k].data
  {
    hide View;
    hide Parse;
    assert Carries(box[k], sent[k]);
  }

  /** Two connections and the network between them. Whatever was handed to the network may arrive,
      more than once, in any order, or not at all. The packets of the datagrams and the run that
      the two have been through are history. */
  class Link {
    const left: TorqueConnection
    const right: TorqueConnection
    ghost var leftSent: seq<Sent>
    ghost var rightSent: seq<Sent>
    ghost var history: seq<World>

    ghost predicate Valid()
      reads this, left, left.ring, right, right.ring
    {
      && left != right && left.ring != right.ring && left.Valid() && right.Valid()
      && Run(history)
      && Matches(left.State(), left.outbox, leftSent, history[|history| - 1].left)
      && Matches(right.State(), right.outbox, rightSent, history[|history| - 1].right)
    }

    constructor (leftSequence: uint32, rightSequence: uint32)
      ensures Valid() && fresh(left) && fresh(left.ring) && fresh(right) && fresh(right.ring)
      ensures left.State() == Fresh(leftSequence, rightSequence, left.ring[..])
      ensures right.State() == Fresh(rightSequence, leftSequence, right.ring[..])
      ensures left.outbox == [] && right.outbox == [] && left.events == [] && right.events == []
    {
      var l := new TorqueConnection(leftSequence);
      l.SetInitialRecvSequence(rightSequence);
      var r := new TorqueConnection(rightSequence);
      r.SetInitialRecvSequence(leftSequence);
      RunStarts(l.State(), r.State());
      left, right, leftSent, rightSent := l, r, [], [];
      history := [World(Party(l.State(), {}, [], {}, {}), Party(r.State(), {}, [], {}, {}))];
    }

    /** The left connection sends a data packet or a ping. */
    method SendLeft(kind: Kind, data: array<bv8>)
      requires Valid() && left.RoomToSend(kind) && (kind == Data || kind == Ping)
      requires kind == Data ==> !left.State().WindowFull()
      modifies this`leftSent, this`history, left`lastSend, left`outbox, left.ring
      ensures Valid() && old(history) < history && |leftSent| == |old(leftSent)| + 1 && old(leftSent) < leftSent
      ensures left.State() == AfterSend(old(left.State()), kind)
      ensures kind == Data && data.Length + 8 <= MAX_DATAGRAM ==> leftSent[|old(leftSent)|].data == data[..]
      ensures kind == Data ==> leftSent[|old(leftSent)|].sequence == left.lastSend
    {
      hide View;
      hide Parse;
      hide NatBits;
      hide IsDatagram;
      hide Carries;
      hide AfterSend;
      hide PacketToSend;
      hide Run;
      hide Send;
      hide Endpoint.State.Valid;
      NotEmpty(history);
      ghost var e, box, w := left.State(), left.outbox, history[|history| - 1];
      SendFacts(e, kind, data[..]);
      left.SendPacket(kind, data);
      assert |left.outbox| == |box| + 1;
      ghost var d := left.outbox[|box|];
      ghost var sentData := CarriesWhatFits(d, e, kind, data[..]);
      SendMatches(e, box, leftSent, w.left, kind, sentData, d);
      assert left.outbox == box + [d];
      ghost var w' := w.(left := Send(w.left, kind, sentData));
      RunGrows(history, if kind == Data then SendsData(sentData) else SendsPing, w');
      SentFields(e, sentData);
      leftSent := leftSent + [PacketToSend(e, kind, sentData)];
      history := history + [w'];
    }

    /** One of the datagrams that the right connection has sent arrives at the left one, in time. */
    method DeliverLeft(k: nat)
      requires Valid() && k < |right.outbox| && left.RoomToReceive() && InTime(left.State(), rightSent[k])
      modifies this`leftSent, this`history, left`lastRecvd, left`highestAcked, left`ackMask, left`lastRecvAckAck
      modifies left`events, left`lastSend, left`outbox, left.ring
      ensures Valid() && old(history) < history && old(left.events) <= left.events
      ensures var h := Parse(View(right.outbox[k]));
              left.State() == Receive(old(left.State()), h, PayloadOf(right.outbox[k], h)).state
    {
      hide View;
      hide Parse;
      hide NatBits;
      hide IsDatagram;
      hide Carries;
      hide Run;
      NotEmpty(history);
      ghost var e, box, w := left.State(), left.outbox, history[|history| - 1];
      var d := right.outbox[k];
      var arrived := new bv8[|d|](i requires 0 <= i < |d| => d[i]);
      assert arrived[..] == d;
      var deliver := left.ReadRawPacket(arrived);
      ghost var packet := rightSent[k];
      leftSent := ReceiveMatches(e, box, leftSent, w.left, d, packet, left.State(), left.outbox);
      ghost var w' := w.(left := Deliver(w.left, packet));
      RunGrows(history, Receives(packet), w');
      history := history + [w'];
    }

    /** The right connection sends a data packet or a ping. */
    method SendRight(kind: Kind, data: array<bv8>)
      requires Valid() && right.RoomToSend(kind) && (kind == Data || kind == Ping)
      requires kind == Data ==> !right.State().WindowFull()
      modifies this`rightSent, this`history, right`lastSend, right`outbox, right.ring
      ensures Valid() && old(history) < history && |rightSent| == |old(rightSent)| + 1 && old(rightSent) < rightSent
      ensures right.State() == AfterSend(old(right.State()), kind)
      ensures kind == Data && data.Length + 8 <= MAX_DATAGRAM ==> rightSent[|old(rightSent)|].data == data[..]
      ensures kind == Data ==> rightSent[|old(rightSent)|].sequence == right.lastSend
    {
      hide View;
      hide Parse;
      hide NatBits;
      hide IsDatagram;
      hide Carries;
      hide AfterSend;
      hide PacketToSend;
      hide Run;
      hide Send;
      hide Endpoint.State.Valid;
      NotEmpty(history);
      ghost var e, box, w := right.State(), right.outbox, history[|history| - 1];
      SendFacts(e, kind, data[..]);
      right.SendPacket(kind, data);
      assert |right.outbox| == |box| + 1;
      ghost var d := right.outbox[|box|];
      ghost var sentData := CarriesWhatFits(d, e, kind, data[..]);
      SendMatches(e, box, rightSent, w.right, kind, sentData, d);
      assert right.outbox == box + [d];
      ghost var w' := w.(right := Send(w.right, kind, sentData));
      RunGrowsRight(history, if kind == Data then SendsData(sentData) else SendsPing, w');
      SentFields(e, sentData);
      rightSent := rightSent + [PacketToSend(e, kind, sentData)];
      history := history + [w'];
    }

    /** One of the datagrams that the left connection has sent arrives at the right one, in time. */
    method DeliverRight(k: nat)
      requires Valid() && k < |left.outbox| && right.RoomToReceive() && InTime(right.State(), leftSent[k])
      modifies this`rightSent, this`history, right`lastRecvd, right`highestAcked, right`ackMask, right`lastRecvAckAck
      modifies right`events, right`lastSend, right`outbox, right.ring
      ensures Valid() && old(history) < history && old(right.events) <= right.events
      ensures var h := Parse(View(left.outbox[k]));
              right.State() == Receive(old(right.State()), h, PayloadOf(left.outbox[k], h)).state
    {
      hide View;
      hide Parse;
      hide NatBits;
      hide IsDatagram;
      hide Carries;
      hide Run;
      NotEmpty(history);
      ghost var e, box, w := right.State(), right.outbox, history[|history| - 1];
      var d := left.outbox[k];
      var arrived := new bv8[|d|](i requires 0 <= i < |d| => d[i]);
      assert arrived[..] == d;
      var deliver := right.ReadRawPacket(arrived);
      ghost var packet := leftSent[k];
      rightSent := ReceiveMatches(e, box, rightSent, w.right, d, packet, right.State(), right.outbox);
      ghost var w' := w.(right := Deliver(w.right, packet));
      RunGrowsRight(history, Receives(packet), w');
      history := history + [w'];
    }

    // ------------------------------------------------------------- end to end

    lemma LastWorld()
      requires Valid()
      ensures |history| > 0 && Run(history)
      ensures history[|history| - 1].left.ep == left.State() && history[|history| - 1].right.ep == right.State()
      ensures forall x :: x in history[|history| - 1].left.sent ==> x in leftSent
    {
      NotEmpty(history);
    }

    /** When the left connection has reported q as not delivered, the right one has not posted q. As
        both queues only grow, it never will. */
    lemma NotDelivered(q: nat, data: Payload)
      requires Valid() && Notify(q, false) in left.events
      ensures Packet(q, data) !in right.events
    {
      LastWorld();
      hide Run;
      var i := |history| - 1;
      var m := EventAt(left.events, Notify(q, false));
      assert ReportedAt(left.State(), m, q, false);
      if Packet(q, data) in right.events {
        var n := EventAt(right.events, Packet(q, data));
        assert PostedAt(right.State(), n, q);
        NotDeliveredIsNeverPosted(history, i, i, q);
      }
    }

    /** When it has reported q as delivered, the right connection has accepted q, and it has posted it
        unless it first heard of q through a ping or an ack. */
    lemma Delivered(q: nat)
      requires Valid() && Notify(q, true) in left.events
      ensures |history| > 0
      ensures var r := history[|history| - 1].right;
              q in r.accepted && (q !in r.overtaken <==> exists data :: Packet(q, data) in right.events)
    {
      LastWorld();
      hide Run;
      var i := |history| - 1;
      var m := EventAt(left.events, Notify(q, true));
      assert ReportedAt(left.State(), m, q, true);
      DeliveredIsAccepted(history, i, q);
      if Posted(right.State(), q) {
        var n :| PostedAt(right.State(), n, q);
        assert right.events[n] == Packet(q, right.events[n].data);
      }
      if exists data :: Packet(q, data) in right.events {
        var data :| Packet(q, data) in right.events;
        var n := EventAt(right.events, Packet(q, data));
        assert PostedAt(right.State(), n, q);
      }
    }

    /** Each connection has reported every packet up to the highest acknowledged, once and in order. */
    lemma ReportedInOrder()
      requires Valid()
      ensures InOrder(left.State()) && InOrder(right.State())
    {
      LastWorld();
      VerdictsInOrder(history, |history| - 1);
    }

    /** What the right connection posts is the payload of a datagram that the left one has sent. */
    lemma PostedWasSent(q: nat, data: Payload) returns (k: nat)
      requires Valid() && Packet(q, data) in right.events
      ensures k < |left.outbox| && k < |leftSent| && leftSent[k].kind == Data && leftSent[k].sequence == q
      ensures var d := left.outbox[k]; PayloadOf(d, Parse(View(d))) == data
    {
      LastWorld();
      var w := history[|history| - 1];
      var m := EventAt(right.events, Packet(q, data));
      assert PostedAt(right.State(), m, q);
      SentIsData(history, |history| - 1, m, q);
      k := IndexOf(leftSent, SentAs(w.left, q));
      assert Matches(left.State(), left.outbox, leftSent, w.left);
      hide *;
      CarriedAt(left.State(), left.outbox, leftSent, w.left, k);
    }
  }
}
