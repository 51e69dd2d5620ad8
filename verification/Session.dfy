/**
 * From received packets to events: the dispatch on the packet type
 * (handle__packet), the reading loop, and what follows for arbitrary input; and
 * from what a client sends to what the other end hears.
 */
module Session {
  import opened Mqtt
  import opened Wire
  import opened Packets
  import opened Properties
  import opened Building
  import opened Framing
  import opened Inflight
  import opened Delivery
  import opened Acks
  import opened Publishing
  import opened History
  import opened Integrity
  import opened SendWindow
  import opened FlowControl
  import opened Exchange
  import opened Progress
  import Admission
  import Client
  import Inbox
  import Outbox
  import Utf8

  /** The event that a packet is, if it bears on the delivery state. */
  ghost function EventOf(protocol: Protocol, hasId: bool, f: Frame): Option<Event> {
    match f.command / 16
    case 2 =>
      (match Client.ConnackAt(protocol, hasId, f.body)
       case BadConnack(_) => None
       case Connack(reason, ps) => Some(OnConnack(reason, ReceiveMaximumOf(ps))))
    case 3 => Some(OnPublish(PublishAt(protocol, f.command, f.body)))
    case 4 => Some(OnPuback(AckAt(protocol, CMD_PUBACK, f.body)))
    case 5 => Some(OnPubrec(AckAt(protocol, CMD_PUBREC, f.body)))
    case 6 => Some(OnPubrel(f.command % 16, AckAt(protocol, CMD_PUBREL, f.body)))
    case 7 => Some(OnPubcomp(AckAt(protocol, CMD_PUBACK, f.body)))
    case 14 => if Client.DisconnectAt(protocol, f.body).Parsed? then Some(DoSetState(Disconnected)) else None
    case _ => None
  }

  // ---------- one packet ----------

  /** The client after a packet, and what its handler returns. */
  datatype Turn = Turn(s: State, x: Client.Terms, rc: int)

  /** handle__packet. `other` is the result of the handlers for PINGREQ, PINGRESP,
      SUBACK, UNSUBACK and AUTH, which touch neither state nor lists nor quotas and
      are not part of this model. */
  ghost function HandleFrame(s: State, x: Client.Terms, f: Frame, other: int, net: Net): Turn {
    match f.command / 16
    case 2 =>
      (match Client.ConnackAt(s.protocol, x.id.Some?, f.body)
       case BadConnack(rc) => Turn(s, x, rc)
       case Connack(reason, ps) =>
         var t := Connack(s, reason, ReceiveMaximumOf(ps), net);
         Turn(t.s, Client.TakenFrom(ps, x), t.rc))
    case 3 => var t := PublishIn(s, PublishAt(s.protocol, f.command, f.body), net); Turn(t.s, x, t.rc)
    case 4 => var t := PubAckComp(s, 1, AckAt(s.protocol, CMD_PUBACK, f.body), net); Turn(t.s, x, t.rc)
    case 5 => var t := PubRec(s, AckAt(s.protocol, CMD_PUBREC, f.body), net); Turn(t.s, x, t.rc)
    case 6 => var t := PubRel(s, f.command % 16, AckAt(s.protocol, CMD_PUBREL, f.body), net); Turn(t.s, x, t.rc)
    case 7 => var t := PubAckComp(s, 2, AckAt(s.protocol, CMD_PUBACK, f.body), net); Turn(t.s, x, t.rc)
    case 14 =>
      (match Client.DisconnectAt(s.protocol, f.body)
       case Failed(rc) => Turn(s, x, rc)
       case Parsed(_, _) => Turn(s.(state := Disconnected), x, SUCCESS))
    case 9 | 11 | 12 | 13 | 15 => Turn(s, x, other)
    case _ => Turn(s, x, ERR_PROTOCOL)
  }

  /** A packet changes the delivery state exactly as the event that it is. */
  lemma FrameIsEvent(s: State, x: Client.Terms, f: Frame, other: int, net: Net)
    ensures HandleFrame(s, x, f, other, net).s ==
            match EventOf(s.protocol, x.id.Some?, f) case Some(e) => Next(s, e, net) case None => s
  {
    hide AckAt, PublishAt, Client.ConnackAt, Client.DisconnectAt, PubAckComp, PubRec, PubRel, PublishIn, Connack, ReceiveMaximumOf, Client.TakenFrom;
  }

  /** The switch of handle__packet. */
  method HandlePacket(c: Client.Client, packet: Packet, other: int) returns (rc: int)
    requires c.Valid() && packet.Readable() && packet.pos == 0
    modifies c, c.outList, c.outList.nodes, c.inList, c.inList.nodes, packet`pos
    ensures c.Valid()
    ensures Turn(c.Now(), c.Agreed(), rc) ==
            HandleFrame(old(c.Now()), old(c.Agreed()), Frame(packet.command, packet.Received()), other, c.net)
    ensures NodesKept(c.outList) && NodesKept(c.inList)
  {
    hide Client.Client.Now, Client.Client.Agreed, Client.Client.Valid, AckAt, PublishAt, Client.ConnackAt, Client.DisconnectAt,
      PubAckComp, PubRec, PubRel, PublishIn, Connack, ReceiveMaximumOf, QosOf, Client.TakenFrom;
    match packet.command / 16 {
      case 2 => rc := c.HandleConnack(packet);
      case 3 => rc := c.HandlePublish(packet);
      case 4 => rc := c.HandlePubackcomp(packet, 1);
      case 5 => rc := c.HandlePubrec(packet);
      case 6 => rc := c.HandlePubrel(packet);
      case 7 => rc := c.HandlePubackcomp(packet, 2);
      case 14 => rc := c.HandleDisconnect(packet);
      case 9 | 11 | 12 | 13 | 15 => rc := other;
      case _ => rc := ERR_PROTOCOL;
    }
  }

  /** Every node of a list was there before or is new. */
  twostate predicate NodesKept(list: MessageList)
    reads list`nodes
  {
    forall i | 0 <= i < |list.nodes| :: list.nodes[i] in old(list.nodes) || fresh(list.nodes[i])
  }

  // ---------- the reading loop ----------

  /** The client as received packets change it. */
  datatype Peer = Peer(s: State, x: Client.Terms)

  /** Handling packets one after the other. */
  ghost function HandleAll(p: Peer, fs: seq<Frame>, net: Net): Peer {
    if fs == [] then p
    else
      var q := HandleAll(p, fs[..|fs| - 1], net);
      var t := HandleFrame(q.s, q.x, fs[|fs| - 1], 0, net);
      Peer(t.s, t.x)
  }

  /** Everything that the reader has handed on has been handled, in order. */
  ghost predicate Following(p: Peer, r: Inbox.Reader, c: Client.Client)
    reads r`handled, c, c.outList`nodes, c.outList`queueLen, c.outList.nodes, c.inList`nodes, c.inList`queueLen, c.inList.nodes
  {
    Peer(c.Now(), c.Agreed()) == HandleAll(p, r.handled, c.net)
  }

  /** The result of a handler that is not modelled does not matter. */
  lemma OtherIgnored(s: State, x: Client.Terms, f: Frame, other: int, net: Net)
    ensures HandleFrame(s, x, f, other, net).s == HandleFrame(s, x, f, 0, net).s
    ensures HandleFrame(s, x, f, other, net).x == HandleFrame(s, x, f, 0, net).x
  {
    hide AckAt, PublishAt, Client.ConnackAt, Client.DisconnectAt, PubAckComp, PubRec, PubRel, PublishIn, Connack, ReceiveMaximumOf, Client.TakenFrom;
  }

  lemma HandleAllMore(p: Peer, fs: seq<Frame>, f: Frame, other: int, net: Net)
    ensures var q := HandleAll(p, fs, net);
            var t := HandleFrame(q.s, q.x, f, other, net);
            HandleAll(p, fs + [f], net) == Peer(t.s, t.x)
  {
    hide HandleFrame;
    var q := HandleAll(p, fs, net);
    assert (fs + [f])[..|fs|] == fs;
    OtherIgnored(q.s, q.x, f, other, net);
  }

  /** One call of packet__read, its packet given to the client. */
  method Receive(ghost p: Peer, r: Inbox.Reader, c: Client.Client, link: Inbox.Link) returns (rc: int, got: bool)
    requires r.Valid() && r.State().r.Reading? && c.Valid() && Following(p, r, c)
    modifies r, r.inPacket, r.inPacket.payload, c, c.outList, c.outList.nodes, c.inList, c.inList.nodes
    ensures r.Valid() && c.Valid() && Following(p, r, c)
    ensures r.inPacket == old(r.inPacket) && (r.inPacket.payload == old(r.inPacket.payload) || fresh(r.inPacket.payload))
    ensures NodesKept(c.outList) && NodesKept(c.inList)
    ensures link == Inbox.Open ==> r.calls > old(r.calls)
    ensures got ==>
              && link == Inbox.Open && r.State().r.Reading? && |r.handled| == |old(r.handled)| + 1 && old(r.handled) <= r.handled
              && rc == ResultOf(p, r.handled, |r.handled| - 1, r.handler, c.net)
    ensures !got ==> r.handled == old(r.handled) && if link == Inbox.Open then r.Explained(rc) else rc == Inbox.Unread(link)
  {
    hide FeedTokens, BytesOf, HandleFrame, HandleAll, ResultOf, Client.Client.Now, Client.Client.Agreed, Client.Client.Valid;
    if link != Inbox.Open { return Inbox.Unread(link), false; }
    rc, got := r.Fetch();
    if got { rc := HandOver(p, r, c); }
  }

  /** The packet that is there goes to its handler, and the buffer is cleared. */
  method HandOver(ghost p: Peer, r: Inbox.Reader, c: Client.Client) returns (rc: int)
    requires r.Due() && r.inPacket.Readable() && r.inPacket.pos == 0 && c.Valid() && Following(p, r, c)
    modifies r`handled, r.inPacket, c, c.outList, c.outList.nodes, c.inList, c.inList.nodes
    ensures r.Valid() && r.State().r.Reading? && c.Valid() && Following(p, r, c)
    ensures fresh(r.inPacket.payload)
    ensures NodesKept(c.outList) && NodesKept(c.inList)
    ensures |r.handled| == |old(r.handled)| + 1 && old(r.handled) <= r.handled
    ensures rc == ResultOf(p, r.handled, |r.handled| - 1, r.handler, c.net)
  {
    hide FeedTokens, BytesOf, HandleFrame, HandleAll, Client.Client.Now, Client.Client.Agreed, Client.Client.Valid;
    ghost var f := Frame(r.inPacket.command, r.inPacket.payload[..]);
    HandleAllMore(p, r.handled, f, r.handler(f), c.net);
    rc := HandlePacket(c, r.inPacket, r.handler(Frame(r.inPacket.command, r.inPacket.payload[..])));
    r.Finish();
    assert r.handled[..|r.handled| - 1] == old(r.handled);
  }

  /** What the handler of the k-th packet returns. */
  ghost function ResultOf(p: Peer, fs: seq<Frame>, k: nat, handler: Frame -> int, net: Net): int
    requires k < |fs|
  {
    var q := HandleAll(p, fs[..k], net);
    HandleFrame(q.s, q.x, fs[k], handler(fs[k]), net).rc
  }

  /** A packet more does not change the results of those before. */
  lemma ResultsKept(p: Peer, fs: seq<Frame>, gs: seq<Frame>, handler: Frame -> int, net: Net)
    requires fs <= gs
    ensures forall k | 0 <= k < |fs| :: ResultOf(p, fs, k, handler, net) == ResultOf(p, gs, k, handler, net)
  {
    hide HandleAll, HandleFrame;
    forall k | 0 <= k < |fs| ensures fs[..k] == gs[..k] && fs[k] == gs[k] {}
  }

  /** How many packets one call may handle. */
  ghost function Budget(c: Client.Client): nat
    reads c, c.outList`queueLen, c.inList`queueLen
  {
    var inFlight := c.outList.queueLen + c.inList.queueLen;
    if inFlight < 1 then 1 else inFlight
  }

  /** As many as there are messages in flight, at least one. */
  lemma BudgetExact(c: Client.Client)
    requires Sound(c.Now())
    ensures var n := |c.Now().out.list| + |c.Now().inn.list|; Budget(c) == if n == 0 then 1 else n
  {
    InFlight(c.Now());
  }

  lemma InFlight(s: State)
    requires Sound(s)
    ensures s.out.queueLen == |s.out.list| && s.inn.queueLen == |s.inn.list|
  {
  }

  /** Why the loop ended, with `n` packets handled since there were `k0`: all that it
      may handle, or the last one failed or left an error number behind that looks
      like a socket with nothing to read, or there was no packet after it. Those
      before the last one did neither. */
  ghost predicate Ended(p: Peer, r: Inbox.Reader, net: Net, links: nat -> Inbox.Link, leftOver: nat -> bool,
                        k0: nat, n: nat, budget: nat, rc: int)
    requires |r.handled| == k0 + n
    reads r
  {
    var fs := r.handled;
    && n <= budget
    && (forall i | 0 <= i < n :: links(i) == Inbox.Open)
    && (forall i | 0 <= i < n - 1 :: !leftOver(i))
    && (forall k | k0 <= k < k0 + n - 1 :: ResultOf(p, fs, k, r.handler, net) == SUCCESS)
    && (|| (n > 0 && rc == ResultOf(p, fs, k0 + n - 1, r.handler, net) && (n == budget || rc != SUCCESS || leftOver(n - 1)))
        || (n < budget && (n > 0 ==> ResultOf(p, fs, k0 + n - 1, r.handler, net) == SUCCESS && !leftOver(n - 1))
            && if links(n) == Inbox.Open then r.Explained(rc) else rc == Inbox.Unread(links(n))))
  }

  /** After turn `i` of the loop. */
  lemma EndsHere(p: Peer, r: Inbox.Reader, net: Net, links: nat -> Inbox.Link, leftOver: nat -> bool,
                 k0: nat, i: nat, budget: nat, got: bool, rc: int)
    requires i < budget && |r.handled| == k0 + i + if got then 1 else 0
    requires forall k | 0 <= k < i :: links(k) == Inbox.Open && !leftOver(k)
    requires forall k | k0 <= k < k0 + i :: ResultOf(p, r.handled, k, r.handler, net) == SUCCESS
    requires if got then
               && links(i) == Inbox.Open && rc == ResultOf(p, r.handled, k0 + i, r.handler, net)
               && (rc != SUCCESS || leftOver(i) || i + 1 == budget)
             else if links(i) == Inbox.Open then r.Explained(rc) else rc == Inbox.Unread(links(i))
    ensures Ended(p, r, net, links, leftOver, k0, |r.handled| - k0, budget, rc)
  {
    hide ResultOf, Inbox.Reader.Explained, Inbox.Unread;
  }

  /** mosquitto_loop_read: as many packets as there are messages in flight, at
      least one. The number asked for is only looked at for being positive. */
  method LoopRead(ghost p: Peer, r: Inbox.Reader, c: Client.Client, asked: int, links: nat -> Inbox.Link, leftOver: nat -> bool)
    returns (rc: int)
    requires r.Valid() && r.State().r.Reading? && c.Valid() && Following(p, r, c)
    modifies r, r.inPacket, r.inPacket.payload, c, c.outList, c.outList.nodes, c.inList, c.inList.nodes
    ensures r.Valid() && c.Valid() && Following(p, r, c)
    ensures old(r.handled) <= r.handled
    ensures if asked < 1 then rc == ERR_INVAL && r.handled == old(r.handled) && r.calls == old(r.calls)
            else Ended(p, r, c.net, links, leftOver, |old(r.handled)|, |r.handled| - |old(r.handled)|, old(Budget(c)), rc)
    ensures asked >= 1 && |r.handled| == |old(r.handled)| && links(0) == Inbox.Open ==> r.calls > old(r.calls)
  {
    hide Ended, ResultOf, HandleAll, HandleFrame, Client.Client.Now, Client.Client.Agreed, Client.Client.Valid,
      Inbox.Reader.Valid, Inbox.Reader.State, Inbox.Reader.Explained, Inbox.Unread;
    if asked < 1 { return ERR_INVAL; }
    var maxPackets := c.outList.queueLen;
    maxPackets := maxPackets + c.inList.queueLen;
    if maxPackets < 1 { maxPackets := 1; }
    rc := SUCCESS;
    for i := 0 to maxPackets
      invariant r.Valid() && r.State().r.Reading? && c.Valid() && Following(p, r, c)
      invariant r.inPacket == old(r.inPacket) && (r.inPacket.payload == old(r.inPacket.payload) || fresh(r.inPacket.payload))
      invariant NodesKept(c.outList) && NodesKept(c.inList)
      invariant old(r.handled) <= r.handled && |r.handled| == |old(r.handled)| + i
      invariant forall k | 0 <= k < i :: links(k) == Inbox.Open && !leftOver(k)
      invariant forall k | |old(r.handled)| <= k < |r.handled| :: ResultOf(p, r.handled, k, r.handler, c.net) == SUCCESS
      invariant i == 0 ==> r.calls == old(r.calls)
      invariant i == maxPackets ==> Ended(p, r, c.net, links, leftOver, |old(r.handled)|, i, maxPackets, rc)
    {
      var got;
      ghost var before := r.handled;
      rc, got := Receive(p, r, c, links(i));
      if got { ResultsKept(p, before, r.handled, r.handler, c.net); }
      if rc != SUCCESS || !got || leftOver(i) || i + 1 == maxPackets {
        EndsHere(p, r, c.net, links, leftOver, |old(r.handled)|, i, maxPackets, got, rc);
      }
      if rc != SUCCESS || !got || leftOver(i) { return rc; }
    }
  }

  /** However the bytes of a sequence of packets arrive, and whatever the socket
      does in between: once all of them have been read, the client is in the state
      to which these packets lead, one by one. */
  lemma SameStateHowever(p: Peer, r: Inbox.Reader, c: Client.Client, fs: seq<Frame>)
    requires r.Valid() && Following(p, r, c)
    requires r.feed == EncodeFrames(fs) && r.taken == |r.feed| && forall f | f in fs :: Framable(f)
    ensures Peer(c.Now(), c.Agreed()) == HandleAll(p, fs, c.net)
  {
    hide Inbox.Reader.Valid;
    Inbox.DeliveredInOrder(r, fs);
  }

  // ---------- arbitrary input ----------

  /** An accepted CONNACK never carries a Receive Maximum of 0. */
  lemma ReceiveMaximumNotZero(command: int, ps: seq<Property>)
    requires Acceptable(command, ps)
    ensures ReceiveMaximumOf(ps) != Some(0)
  {
  }

  lemma NoReceiveMaximum()
    ensures ReceiveMaximumOf([]) == None
  {
  }

  lemma ConnackPossible(protocol: Protocol, hasId: bool, body: seq<byte>)
    ensures match Client.ConnackAt(protocol, hasId, body)
            case Connack(_, ps) => ReceiveMaximumOf(ps) != Some(0)
            case _ => true
  {
    NoReceiveMaximum();
    hide PropertiesAt, ReceiveMaximumOf, Acceptable;
    if protocol == V5 && |body| >= 2 {
      match PropertiesAt(CMD_CONNACK, body, 2)
      case Failed(_) =>
      case Parsed(ps, next) =>
        PropertiesExact(CMD_CONNACK, body, 2, ps, next);
        ReceiveMaximumNotZero(CMD_CONNACK, ps);
    }
  }

  lemma PublishNonZero(protocol: Protocol, command: byte, body: seq<byte>)
    ensures match PublishAt(protocol, command, body) case Publish(qos, mid, _, _) => qos > 0 ==> mid != 0 case _ => true
  {
    hide PropertiesAt, StringAt;
  }

  /** Every packet, well-formed or not, is an event that the results on runs cover,
      or none at all; and none has identifier 0. */
  lemma EventPossible(protocol: Protocol, hasId: bool, f: Frame)
    ensures match EventOf(protocol, hasId, f) case Some(e) => Possible(e) && NonZero(e) case None => true
  {
    ConnackPossible(protocol, hasId, f.body);
    PublishNonZero(protocol, f.command, f.body);
    hide PublishAt, PropertiesAt, ReceiveMaximumOf, Client.ConnackAt, Client.DisconnectAt;
  }

  // ---------- what holds for runs holds for a client that reads ----------

  /** The events that packets are, for the client that handles them one by one. */
  ghost function EventsOf(p: Peer, fs: seq<Frame>, net: Net): seq<Event> {
    if fs == [] then []
    else
      var before := fs[..|fs| - 1];
      var q := HandleAll(p, before, net);
      EventsOf(p, before, net) +
      match EventOf(q.s.protocol, q.x.id.Some?, fs[|fs| - 1])
      case Some(e) => [e]
      case None => []
  }

  /** Handling packets is a run of the events that they are, all of them possible. */
  lemma {:induction false} HandleAllIsRun(p: Peer, fs: seq<Frame>, net: Net)
    ensures HandleAll(p, fs, net).s == Run(p.s, EventsOf(p, fs, net), net)
    ensures PossibleRun(EventsOf(p, fs, net)) && forall e | e in EventsOf(p, fs, net) :: NonZero(e)
  {
    hide Next, EventOf, HandleFrame, Possible, NonZero;
    if fs != [] {
      var before, f := fs[..|fs| - 1], fs[|fs| - 1];
      var q := HandleAll(p, before, net);
      HandleAllIsRun(p, before, net);
      FrameIsEvent(q.s, q.x, f, 0, net);
      EventPossible(q.s.protocol, q.x.id.Some?, f);
      match EventOf(q.s.protocol, q.x.id.Some?, f)
      case Some(e) => RunMore(p.s, EventsOf(p, before, net), e, net);
      case None => assert EventsOf(p, fs, net) == EventsOf(p, before, net);
    }
  }

  /** Whatever packets are handled, the accounts and invariants of History stay
      true. */
  lemma HandleAllSound(p: Peer, fs: seq<Frame>, net: Net)
    requires Sound(p.s)
    ensures Sound(HandleAll(p, fs, net).s)
    ensures QuotaSound(p.s.inn) ==> QuotaSound(HandleAll(p, fs, net).s.inn)
  {
    hide Sound, QuotaSound, HandleAll, Run, PossibleRun;
    HandleAllIsRun(p, fs, net);
    SoundRun(p.s, EventsOf(p, fs, net), net);
  }

  /** So for a client that reads from a socket, whatever bytes a peer sends, in
      whatever pieces, up to any point: the accounts and invariants of History hold, */
  lemma FollowingSound(p: Peer, r: Inbox.Reader, c: Client.Client)
    requires Sound(p.s) && Following(p, r, c)
    ensures Sound(c.Now()) && (QuotaSound(p.s.inn) ==> QuotaSound(c.Now().inn))
  {
    hide Sound, QuotaSound, HandleAll;
    HandleAllSound(p, r.handled, c.net);
  }

  /** the send window if the packets are fair, */
  lemma FollowingWindow(p: Peer, r: Inbox.Reader, c: Client.Client)
    requires Window(p.s) && Following(p, r, c) && FairRun(p.s, EventsOf(p, r.handled, c.net), c.net)
    ensures Window(c.Now())
  {
    hide Window, HandleAll, Run, FairRun;
    HandleAllIsRun(p, r.handled, c.net);
    WindowRun(p.s, EventsOf(p, r.handled, c.net), c.net);
  }

  /** the order of messages as long as no CONNACK comes, */
  lemma FollowingInOrder(p: Peer, r: Inbox.Reader, c: Client.Client, from: nat, floor: nat)
    requires Window(p.s) && OutSound(p.s.out) && OutConserved(p.s.out, p.s.notes) && Marching(p.s, from, floor)
    requires Following(p, r, c) && FairRun(p.s, EventsOf(p, r.handled, c.net), c.net)
    requires forall e | e in EventsOf(p, r.handled, c.net) :: SameConnection(e)
    ensures Marching(c.Now(), from, floor)
  {
    hide Window, OutSound, OutConserved, Marching, HandleAll, Run, FairRun, SameConnection;
    HandleAllIsRun(p, r.handled, c.net);
    MarchingRun(p.s, EventsOf(p, r.handled, c.net), c.net, from, floor);
  }

  /** and progress as long as no CONNACK comes and sends succeed. */
  lemma FollowingFlows(p: Peer, r: Inbox.Reader, c: Client.Client, from: nat)
    requires Flowing(p.s, from) && GoodFrom(c.net, |p.s.wire|) && Following(p, r, c)
    requires forall e | e in EventsOf(p, r.handled, c.net) :: WithinConnection(e)
    ensures Flowing(c.Now(), from)
  {
    hide Flowing, HandleAll, Run, PossibleRun, WithinConnection;
    HandleAllIsRun(p, r.handled, c.net);
    FlowingRun(p.s, EventsOf(p, r.handled, c.net), c.net, from);
  }

  // ---------- from one end to the other ----------

  /** The packet that a send puts on the wire. */
  function FrameOf(protocol: Protocol, sent: Sent): Frame
    requires sent.SentPublish? ==> sent.msg.qos <= 2
  {
    match sent
    case SentPublish(m, _) => Frame(PublishCommand(PacketOf(m)), PublishBody(protocol, PacketOf(m)))
    case SentAck(command, mid, _) => Frame(command, AckBody(protocol, mid, 0, []))
  }

  function PacketOf(m: Message): Outgoing {
    Outgoing(m.mid, m.content.topic, m.content.payload, m.qos, m.content.retain, m.dup, m.content.properties)
  }

  /** A send whose packet packet__alloc does not refuse: its body is no longer than
      a remaining length can say. Only such sends ever reach the wire. */
  predicate Framed(protocol: Protocol, sent: Sent) {
    (sent.SentPublish? ==> sent.msg.qos <= 2) && |FrameOf(protocol, sent).body| <= MAX_VARINT
  }

  /** What a send comes to at the other end: the message or acknowledgement that was
      meant; a message without a topic of its own, which relies on a topic alias,
      is refused there. */
  function Meant(protocol: Protocol, sent: Sent): Option<Event> {
    match sent
    case SentPublish(m, _) =>
      if m.content.topic.None? then Some(OnPublish(BadTopic(ERR_PROTOCOL)))
      else Some(OnPublish(Publish(m.qos, if m.qos > 0 then m.mid else 0, m.dup,
                                  m.content.(properties := if protocol == V5 then m.content.properties else []))))
    case SentAck(command, mid, _) =>
      if command == CMD_PUBACK then Some(OnPuback(Ack(mid, 0)))
      else if command == CMD_PUBREC then Some(OnPubrec(Ack(mid, 0)))
      else if command == CMD_PUBREL + 2 then Some(OnPubrel(2, Ack(mid, 0)))
      else if command == CMD_PUBCOMP then Some(OnPubcomp(Ack(mid, 0)))
      else None
  }

  /** What mosquitto_publish_v5 lets into a message. */
  ghost predicate Admissible(protocol: Protocol, content: Content) {
    && |content.payload| <= 0x7FFF_FFFF
    && (content.topic.Some? ==> content.topic.value != [] && Utf8.WellFormed(content.topic.value) && Fits(content.topic.value))
    && (protocol == V5 ==>
          PropertiesFit(content.properties) && AllGood(content.properties) && Acceptable(CMD_PUBLISH, content.properties))
  }

  /** Every call that is admitted makes such a message. */
  lemma AdmittedAdmissible(limits: Admission.Limits, topic: seq<byte>, payload: seq<byte>, qos: int, given: seq<Property>,
                           clientGenerated: bool, retain: bool)
    requires var ps := Admission.OutgoingProperties(given, clientGenerated);
             && Admission.PublishFault(limits, topic, payload, qos, given, ps) == SUCCESS
             && PropertiesFit(ps) && AllGood(ps) && |payload| <= 0x7FFF_FFFF
    ensures Admissible(limits.protocol, Content(if topic == [] then None else Some(topic), payload, retain,
                                                Admission.OutgoingProperties(given, clientGenerated)))
  {
    hide Admission.PublishFault, Acceptable, AllGood, PropertiesFit;
    Admission.AdmittedExactly(limits, topic, payload, qos, given, clientGenerated);
  }

  /** A message without a topic of its own. */
  lemma NoTopicRefused(protocol: Protocol, p: Outgoing)
    requires p.topic.None? && p.qos <= 2
    ensures PublishAt(protocol, PublishCommand(p), PublishBody(protocol, p)) == BadTopic(ERR_PROTOCOL)
  {
    hide PropertyBlock, MidBytes, PublishCommand, RestAt, EncodeBinary;
    var body := PublishBody(protocol, p);
    BodyParts(EncodeBinary([]), MidBytes(p), PropertyBlock(protocol, p.properties), p.payload);
    assert Holds(body, 0, EncodeBinary([]));
    StringExact(body, 0, [], 2);
  }

  /** Printed, read and dispatched, a send is the event that was meant. */
  lemma SendMeant(protocol: Protocol, hasId: bool, sent: Sent)
    requires Addressed(sent) && (sent.SentPublish? ==> Admissible(protocol, sent.msg.content))
    ensures EventOf(protocol, hasId, FrameOf(protocol, sent)) == Meant(protocol, sent)
  {
    match sent
    case SentPublish(m, _) =>
      CommandBits(PacketOf(m));
      if m.content.topic.Some? {
        PublishRoundTrip(protocol, PacketOf(m));
      } else {
        NoTopicRefused(protocol, PacketOf(m));
      }
      hide PublishAt, PublishBody, PublishCommand, Deliverable;
    case SentAck(command, mid, _) =>
      NoPropertiesFit();
      AckRoundTrip(protocol, CMD_PUBACK, mid, 0, []);
      AckRoundTrip(protocol, CMD_PUBREC, mid, 0, []);
      AckRoundTrip(protocol, CMD_PUBREL, mid, 0, []);
      hide AckAt, AckBody;
  }

  lemma NoPropertiesFit()
    ensures PropertiesFit([]) && AllGood([]) && forall command :: Acceptable(command, [])
  {
  }

  function Frames(protocol: Protocol, xs: seq<Sent>): seq<Frame>
    requires forall x | x in xs :: Framed(protocol, x)
  {
    if xs == [] then [] else (assert Framed(protocol, xs[0]); [FrameOf(protocol, xs[0])] + Frames(protocol, xs[1..]))
  }

  function Meanings(protocol: Protocol, xs: seq<Sent>): (es: seq<Option<Event>>)
    ensures |es| == |xs|
  {
    if xs == [] then [] else [Meant(protocol, xs[0])] + Meanings(protocol, xs[1..])
  }

  /** The events that a peer makes of packets. */
  ghost function Heard(protocol: Protocol, hasId: bool, fs: seq<Frame>): (es: seq<Option<Event>>)
    ensures |es| == |fs|
  {
    if fs == [] then [] else [EventOf(protocol, hasId, fs[0])] + Heard(protocol, hasId, fs[1..])
  }

  lemma {:induction false} HeardPrefix(protocol: Protocol, hasId: bool, fs: seq<Frame>, gs: seq<Frame>)
    requires fs <= gs
    ensures Heard(protocol, hasId, fs) <= Heard(protocol, hasId, gs)
  {
    hide EventOf;
    if fs != [] {
      assert fs[1..] <= gs[1..];
      HeardPrefix(protocol, hasId, fs[1..], gs[1..]);
    }
  }

  ghost predicate AllMeant(protocol: Protocol, xs: seq<Sent>) {
    forall x | x in xs :: Framed(protocol, x) && Addressed(x) && (x.SentPublish? ==> Admissible(protocol, x.msg.content))
  }

  lemma {:induction false} FramesHeard(protocol: Protocol, hasId: bool, xs: seq<Sent>)
    requires AllMeant(protocol, xs)
    ensures Heard(protocol, hasId, Frames(protocol, xs)) == Meanings(protocol, xs)
    ensures forall f | f in Frames(protocol, xs) :: Framable(f)
  {
    hide EventOf, Meant, FrameOf, Admissible;
    if xs != [] {
      var fs := Frames(protocol, xs);
      assert xs[0] in xs && forall x | x in xs[1..] :: x in xs;
      FramesHeard(protocol, hasId, xs[1..]);
      SendMeant(protocol, hasId, xs[0]);
      SendFramable(protocol, xs[0]);
      assert fs[1..] == Frames(protocol, xs[1..]);
      assert forall f | f in fs :: f == fs[0] || f in fs[1..];
    }
  }

  lemma SendFramable(protocol: Protocol, sent: Sent)
    requires Framed(protocol, sent) && Addressed(sent)
    ensures Framable(FrameOf(protocol, sent))
  {
    if sent.SentPublish? { CommandBits(PacketOf(sent.msg)); }
    hide PublishBody, AckBody;
  }

  /** The packets of which the writer reports that they have been written are the
      QoS 0 messages. */
  lemma QosZeroExact(protocol: Protocol, sent: Sent)
    requires Framed(protocol, sent) && Addressed(sent)
    ensures Outbox.QosZero(FrameOf(protocol, sent).command) <==> sent.SentPublish? && sent.msg.qos == 0
  {
    if sent.SentPublish? { CommandBits(PacketOf(sent.msg)); }
    hide PublishBody, AckBody;
  }

  /** The sends of a run that are put on the wire, in any selection: some may have
      been refused for their size or lost with a connection. */
  ghost predicate SentBy(s: State, protocol: Protocol, xs: seq<Sent>) {
    forall x | x in xs :: x in s.wire && Framed(protocol, x)
  }

  /** The application publishes what mosquitto_publish_v5 admits. */
  ghost predicate AdmissibleRun(protocol: Protocol, es: seq<Event>) {
    forall e | e in es :: e.DoPublish? ==> Admissible(protocol, e.outContent)
  }

  lemma RunMeant(protocol: Protocol, outMax: nat, inMax: nat, es: seq<Event>, net: Net, xs: seq<Sent>)
    requires PossibleRun(es) && AdmissibleRun(protocol, es) && forall e | e in es :: NonZero(e)
    requires SentBy(Run(Start(protocol, outMax, inMax), es, net), protocol, xs)
    ensures AllMeant(protocol, xs)
  {
    hide Run, Start, NonZero, Framed, Admissible, Possible, NotesGenuine, AllReceived, AllPublished, Sound;
    StartSound(protocol, outMax, inMax);
    assert Start(protocol, outMax, inMax).wire == [] by { StartWire(protocol, outMax, inMax); }
    AddressedRun(Start(protocol, outMax, inMax), es, net);
    NothingInvented(protocol, outMax, inMax, es, net);
    var w := Run(Start(protocol, outMax, inMax), es, net).wire;
    forall x | x in xs ensures Framed(protocol, x) && Addressed(x) && (x.SentPublish? ==> Admissible(protocol, x.msg.content)) {
      var i :| 0 <= i < |w| && w[i] == x;
      if x.SentPublish? {
        assert Published(es, x.msg);
        assert DoPublish(x.msg.qos, x.msg.content) in es;
      }
    }
  }

  lemma StartWire(protocol: Protocol, outMax: nat, inMax: nat)
    ensures Start(protocol, outMax, inMax).wire == []
  {
  }

  /** The sends that the network took, in their order. */
  function Taken(protocol: Protocol, w: seq<Sent>): (xs: seq<Sent>)
    ensures forall x | x in xs :: x in w && Framed(protocol, x)
  {
    if w == [] then []
    else (if w[0].rc == SUCCESS && Framed(protocol, w[0]) then [w[0]] else []) + Taken(protocol, w[1..])
  }

  /** The packets that messages and their acknowledgements make, among others. */
  function Delivering(fs: seq<Frame>): seq<Frame> {
    if fs == [] then [] else (if 3 <= fs[0].command / 16 <= 7 then [fs[0]] else []) + Delivering(fs[1..])
  }

  lemma {:induction false} DeliveringPrefix(fs: seq<Frame>, gs: seq<Frame>)
    requires fs <= gs
    ensures Delivering(fs) <= Delivering(gs)
  {
    if fs != [] {
      assert fs[1..] <= gs[1..];
      DeliveringPrefix(fs[1..], gs[1..]);
    }
  }

  /** What a client sends over a connection, and what the other end hears. The
      packets of the sends that the network took are queued in their order, among
      whatever other packets; they are written in any parts, and what has come
      through is read in any pieces. The events that the other end makes of them
      are the beginning of those that were meant, and all of them once all bytes
      are through. */
  lemma WhatIsSentIsHeard(protocol: Protocol, outMax: nat, inMax: nat, es: seq<Event>, net: Net, from: nat, hasId: bool,
                          w: Outbox.Writer, r: Inbox.Reader)
    requires PossibleRun(es) && AdmissibleRun(protocol, es) && forall e | e in es :: NonZero(e)
    requires from <= |Run(Start(protocol, outMax, inMax), es, net).wire|
    requires w.Valid() && r.Valid() && r.feed <= w.wire
    requires Delivering(w.frames) == Frames(protocol, Taken(protocol, Run(Start(protocol, outMax, inMax), es, net).wire[from..]))
    ensures var heard := Heard(protocol, hasId, Delivering(r.handled));
            var meant := Meanings(protocol, Taken(protocol, Run(Start(protocol, outMax, inMax), es, net).wire[from..]));
            heard <= meant && (r.taken == |EncodeFrames(w.frames)| ==> heard == meant)
  {
    hide Run, Heard, Meanings, Frames, AllMeant, Framable, Delivering, Framed, Taken, Inbox.Reader.Valid, Outbox.Writer.Valid;
    var all := Run(Start(protocol, outMax, inMax), es, net).wire;
    var xs := Taken(protocol, all[from..]);
    assert forall x | x in xs :: x in all[from..] && x in all;
    RunMeant(protocol, outMax, inMax, es, net, xs);
    FramesHeard(protocol, hasId, xs);
    Outbox.EndToEnd(w, r);
    DeliveringPrefix(r.handled, w.frames);
    HeardPrefix(protocol, hasId, Delivering(r.handled), Delivering(w.frames));
  }
}
