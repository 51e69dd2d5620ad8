/**
 * The client as the source has it: fields that are updated in place and linked
 * lists that are walked, searched and relinked.  Every operation is shown to do
 * to the abstract state exactly what Delivery says.
 */
module Client {
  import opened Mqtt
  import opened Packets
  import opened Properties
  import opened Inflight
  import opened Delivery
  import opened Acks
  import opened Publishing
  import opened Admission
  import opened Building
  import Connecting
  import Utf8
  import Wire

  /** PUBREC with a success code, once read. */
  function ReceivedStep(s: State, mid: uint16, net: Net): Step {
    match Find(s.out.list, mid, 2)
    case WrongQos => Step(s, ERR_PROTOCOL)
    case Missing => SendAck(s, CMD_PUBREL + 2, mid, net)
    case Found(k) =>
      SendAck(s.(out := s.out.(list := s.out.list[k := s.out.list[k].(state := WaitForPubcomp)])), CMD_PUBREL + 2, mid, net)
  }

  /** What CONNACK reads as. */
  datatype ConnackRead = BadConnack(rc: int) | Connack(reason: byte, properties: seq<Property>)

  /** A client identifier may be assigned only to a client that has none. */
  ghost function ConnackAt(protocol: Protocol, hasId: bool, body: seq<byte>): ConnackRead {
    if |body| < 2 then BadConnack(ERR_PROTOCOL)
    else
      match BlockAt(protocol, CMD_CONNACK, body, 2)
      case Failed(rc) => BadConnack(rc)
      case Parsed(ps, _) =>
        if hasId && FirstOf(ps, ASSIGNED_CLIENT_IDENTIFIER).Some? then BadConnack(ERR_PROTOCOL) else Connack(body[1], ps)
  }

  /** What a CONNACK sets besides the delivery state. */
  datatype Terms = Terms(id: Option<seq<byte>>, maximumQos: nat, maximumPacketSize: nat, keepalive: nat)

  /** The reads of single properties in handle__connack. */
  function TakenFrom(ps: seq<Property>, x: Terms): Terms {
    Terms(TextOr(ps, ASSIGNED_CLIENT_IDENTIFIER, x.id), ByteOr(ps, MAXIMUM_QOS, x.maximumQos),
          Int32Or(ps, MAXIMUM_PACKET_SIZE, x.maximumPacketSize), Int16Or(ps, SERVER_KEEP_ALIVE, x.keepalive))
  }

  /** By identifier: the client identifier is property 18, the maximum QoS 36, the
      maximum packet size 39 and the keepalive time 19. */
  predicate Obeyed(p: Property, x: Terms) {
    match p.identifier
    case 18 => p.value.Text? && x.id == Some(p.value.s)
    case 36 => p.value.Byte? && x.maximumQos == p.value.i8
    case 39 => p.value.Int32? && x.maximumPacketSize == p.value.i32
    case 19 => p.value.Int16? && x.keepalive == p.value.i16
    case _ => true
  }

  predicate Lacks(ps: seq<Property>, identifier: nat) { forall p | p in ps :: p.identifier != identifier }

  /** Each is that of the packet, or what it was if the packet has none. */
  lemma TermsExact(ps: seq<Property>, x: Terms)
    requires forall p | p in ps :: Encodable(p)
    ensures var y := TakenFrom(ps, x);
            && (forall k: nat | FirstAt(ps, k) :: Obeyed(ps[k], y))
            && (Lacks(ps, 18) ==> y.id == x.id)
            && (Lacks(ps, 36) ==> y.maximumQos == x.maximumQos)
            && (Lacks(ps, 39) ==> y.maximumPacketSize == x.maximumPacketSize)
            && (Lacks(ps, 19) ==> y.keepalive == x.keepalive)
  {
    hide FirstOf, TextOr, ByteOr, Int16Or, Int32Or;
    if Lacks(ps, 18) { ReadsNothing(ps, 18, 0, x.id); }
    if Lacks(ps, 36) { ReadsNothing(ps, 36, x.maximumQos, None); }
    if Lacks(ps, 39) { ReadsNothing(ps, 39, x.maximumPacketSize, None); }
    if Lacks(ps, 19) { ReadsNothing(ps, 19, x.keepalive, None); }
    forall k: nat | FirstAt(ps, k) ensures Obeyed(ps[k], TakenFrom(ps, x)) {
      assert ps[k] in ps;
      ReadsFirst(ps, k, x.maximumQos, x.id);
      ReadsFirst(ps, k, x.maximumPacketSize, x.id);
      ReadsFirst(ps, k, x.keepalive, x.id);
    }
  }

  /** The reason of a DISCONNECT, or why it is refused. The properties are not looked
      at unless there are more than two bytes. */
  ghost function DisconnectAt(protocol: Protocol, body: seq<byte>): Parsed<byte> {
    if protocol != V5 then Failed(ERR_PROTOCOL)
    else
      match Wire.ByteAt(body, 0)
      case Failed(rc) => Failed(rc)
      case Parsed(reason, p) =>
        if |body| <= 2 then Parsed(reason, p)
        else
          match PropertiesAt(CMD_DISCONNECT, body, p)
          case Failed(rc) => Failed(rc)
          case Parsed(_, next) => Parsed(reason, next)
  }

  /** The CONNACK packets that are accepted: flags and a reason; in version 5 an
      acceptable property block, without an identifier for a client that has one. */
  ghost predicate ConnackLaid(protocol: Protocol, hasId: bool, body: seq<byte>, reason: byte, ps: seq<Property>) {
    && |body| >= 2 && body[1] == reason
    && (if protocol == V5 then exists rest :: BlockLaid(0x20, body[2..], ps, rest) else ps == [])
    && (hasId ==> forall p | p in ps :: p.identifier != 18)
  }

  lemma ConnackExact(protocol: Protocol, hasId: bool, body: seq<byte>, reason: byte, ps: seq<Property>)
    ensures ConnackAt(protocol, hasId, body) == Connack(reason, ps) <==> ConnackLaid(protocol, hasId, body, reason, ps)
  {
    hide PropertiesAt, BlockLaid;
    if |body| >= 2 && protocol == V5 { BlockReadsAs(CMD_CONNACK, body, 2, ps); }
  }

  /** What is not accepted fails with an error of its own. */
  lemma ConnackErrors(protocol: Protocol, hasId: bool, body: seq<byte>)
    ensures match ConnackAt(protocol, hasId, body) case BadConnack(rc) => ReadError(rc) case _ => true
  {
    hide PropertiesAt;
    ReadErrors(CMD_CONNACK, body, 2);
  }

  /** Section 3.14.2 of MQTT Version 5.0: nothing, a reason, or a reason and a
      property block. */
  ghost predicate StandardDisconnect(body: seq<byte>) {
    |body| <= 1 || exists ps :: StandardBlock(body[1..], ps)
  }

  ghost predicate StandardBlock(b: seq<byte>, ps: seq<Property>) {
    AllGood(ps) && Acceptable(CMD_DISCONNECT, ps) && |EncodeProperties(ps)| <= MAX_VARINT && b == PropertyBlock(V5, ps)
  }

  /** All that is read: a reason, and with more than two bytes an acceptable property
      block. */
  lemma DisconnectReads(protocol: Protocol, body: seq<byte>)
    ensures DisconnectAt(protocol, body).Parsed? <==>
            && protocol == V5 && body != []
            && (|body| > 2 ==> exists ps, rest :: BlockLaid(0xE0, body[1..], ps, rest))
    ensures DisconnectAt(protocol, body).Parsed? ==> DisconnectAt(protocol, body).value == body[0]
  {
    hide PropertiesAt, BlockLaid;
    if |body| > 2 { BlockSome(CMD_DISCONNECT, body, 1); }
  }

  /** Of what the standard allows, all is read but the empty packet, whose reason is
      left out. */
  lemma DisconnectExact(body: seq<byte>)
    requires StandardDisconnect(body)
    ensures DisconnectAt(V5, body).Parsed? <==> body != []
    ensures body != [] ==> DisconnectAt(V5, body).value == body[0]
  {
    hide PropertiesAt, StandardBlock;
    if |body| > 2 {
      var ps :| StandardBlock(body[1..], ps);
      BlockReads(body, ps);
    }
  }

  lemma BlockReads(body: seq<byte>, ps: seq<Property>)
    requires body != [] && StandardBlock(body[1..], ps)
    ensures PropertiesAt(CMD_DISCONNECT, body, 1).Parsed?
  {
    hide PropertiesAt, AllGood, Acceptable, EncodeProperties, PropertyBlock;
    PropertiesRoundTrip(CMD_DISCONNECT, body, 1, ps);
  }

  // ---------- walking down a list ----------

  /** A walk that has already passed some messages. */
  function Passed(done: seq<Message>, w: Walk): Walk { w.(list := done + w.list) }

  lemma PassedNone(w: Walk)
    ensures Passed([], w) == w
  {
  }

  lemma PassedOne(done: seq<Message>, m: Message, w: Walk)
    ensures Passed(done, w.(list := [m] + w.list)) == Passed(done + [m], w)
  {
  }

  /** One turn of the loop of message__release_to_inflight. */
  lemma ReleaseTurn(c: seq<Message>, k: nat, quota: nat, wire: seq<Sent>, net: Net)
    requires k < |c| && quota > 0
    ensures var w := Passed(c[..k], ReleaseToInflight(c[k..], quota, wire, net));
            if c[k].qos > 0 && c[k].state == Invalid then
              var c', rc := c[k := Release(c[k])], net(|wire|);
              var wire' := wire + [SentPublish(Release(c[k]), rc)];
              if rc != SUCCESS then w == Walk(c', quota, wire', rc)
              else w == Passed(c'[..k + 1], ReleaseToInflight(c'[k + 1..], Decrement(quota), wire', net))
            else w == Passed(c[..k + 1], ReleaseToInflight(c[k + 1..], quota, wire, net))
  {
    var l := c[k..];
    assert l[0] == c[k] && l[1..] == c[k + 1..];
    if c[k].qos > 0 && c[k].state == Invalid {
      var m := Release(c[k]);
      var c', rc := c[k := m], net(|wire|);
      var wire' := wire + [SentPublish(m, rc)];
      assert c'[k + 1..] == c[k + 1..] && c'[..k + 1] == c[..k] + [m];
      assert c[..k] + ([m] + l[1..]) == c';
      PassedOne(c[..k], m, ReleaseToInflight(l[1..], Decrement(quota), wire', net));
    } else {
      assert c[..k + 1] == c[..k] + [c[k]];
      PassedOne(c[..k], c[k], ReleaseToInflight(l[1..], quota, wire, net));
    }
  }

  lemma ReleaseEnd(c: seq<Message>, k: nat, quota: nat, wire: seq<Sent>, net: Net)
    requires k <= |c| && (k == |c| || quota == 0)
    ensures Passed(c[..k], ReleaseToInflight(c[k..], quota, wire, net)) == Walk(c, quota, wire, SUCCESS)
  {
  }

  class Client {
    const protocol: Protocol
    const net: Net
    const outList: MessageList
    const inList: MessageList
    var id: Option<seq<byte>>
    var maximumQos: nat
    var maximumPacketSize: nat
    var keepalive: nat
    var state: ClientState
    var outQuota: nat
    var outMaximum: nat
    var inQuota: nat
    var inMaximum: nat
    var lastMid: uint16
    // what has been handed to the socket layer, and to the application
    var wire: seq<Sent>
    var notes: seq<Note>
    // how many identifiers have been drawn and how many inbound messages stored
    var drawn: nat
    var stored: nat

    ghost predicate Valid()
      reads outList`head, outList`nodes, outList.nodes, inList`head, inList`nodes, inList.nodes
    {
      && outList.Valid() && inList.Valid() && outList != inList
      && forall i, j | 0 <= i < |outList.nodes| && 0 <= j < |inList.nodes| :: outList.nodes[i] != inList.nodes[j]
    }

    ghost function Out(): Outbound
      reads this, outList`nodes, outList`queueLen, outList.nodes
    {
      Outbound(outList.Contents(), outList.queueLen, outQuota, outMaximum, lastMid, drawn)
    }

    ghost function In(): Inbound
      reads this, inList`nodes, inList`queueLen, inList.nodes
    {
      Inbound(inList.Contents(), inList.queueLen, inQuota, inMaximum, stored)
    }

    /** The state that the fields and lists stand for. */
    ghost function Now(): (s: State)
      reads this, outList`nodes, outList`queueLen, outList.nodes, inList`nodes, inList`queueLen, inList.nodes
      ensures s.state == state && s.protocol == protocol && s.wire == wire && s.notes == notes
      ensures s.out.list == outList.Contents() && s.inn.list == inList.Contents() && s.inn.quota == inQuota
      ensures s.inn.stored == stored && s.out.lastMid == lastMid && s.out.drawn == drawn
    {
      State(Out(), In(), state, protocol, wire, notes)
    }

    ghost function Agreed(): (x: Terms)
      reads this`id, this`maximumQos, this`maximumPacketSize, this`keepalive
      ensures x.id == id
    {
      Terms(id, maximumQos, maximumPacketSize, keepalive)
    }

    constructor (protocol: Protocol, id: Option<seq<byte>>, outMax: nat, inMax: nat, net: Net)
      ensures Valid() && Now() == Start(protocol, outMax, inMax)
      ensures this.protocol == protocol && this.net == net && Agreed() == Terms(id, 2, 0, 60)
    {
      this.protocol, this.net, this.id := protocol, net, id;
      maximumQos, maximumPacketSize, keepalive := 2, 0, 60;
      outList := new MessageList();
      inList := new MessageList();
      state := New;
      outQuota, outMaximum := INITIAL_MAXIMUM, outMax;
      inQuota, inMaximum := INITIAL_MAXIMUM, inMax;
      lastMid, drawn, stored := 0, 0, 0;
      wire, notes := [], [];
    }

    // ---------- quotas, identifiers, sending ----------

    /** util__increment_send_quota. */
    method IncrementSendQuota()
      modifies this`outQuota
      ensures outQuota == Increment(old(outQuota), outMaximum)
      ensures Now() == CreditOut(old(Now()))
    {
      if outQuota < outMaximum { outQuota := outQuota + 1; }
    }

    /** util__decrement_send_quota. */
    method DecrementSendQuota()
      modifies this`outQuota
      ensures outQuota == Decrement(old(outQuota))
    {
      if outQuota > 0 { outQuota := outQuota - 1; }
    }

    /** util__increment_receive_quota. */
    method IncrementReceiveQuota()
      modifies this`inQuota
      ensures inQuota == Increment(old(inQuota), inMaximum)
      ensures Now() == CreditIn(old(Now()))
    {
      if inQuota < inMaximum { inQuota := inQuota + 1; }
    }

    /** util__decrement_receive_quota. */
    method DecrementReceiveQuota()
      modifies this`inQuota
      ensures inQuota == Decrement(old(inQuota))
      ensures Now() == ChargeIn(old(Now()))
    {
      if inQuota > 0 { inQuota := inQuota - 1; }
    }

    /** mosquitto__mid_generate: a 16-bit counter that skips 0. */
    method MidGenerate() returns (mid: uint16)
      modifies this`lastMid, this`drawn
      ensures mid == lastMid == NextMid(old(lastMid)) && mid != 0 && drawn == old(drawn) + 1
      ensures Now() == TakeMid(old(Now()))
    {
      lastMid := (lastMid + 1) % 0x1_0000;
      if lastMid == 0 { lastMid := lastMid + 1; }
      drawn := drawn + 1;
      mid := lastMid;
    }

    method SendPublish(m: Message) returns (rc: int)
      modifies this`wire
      ensures rc == net(|old(wire)|) && wire == old(wire) + [SentPublish(m, rc)]
    {
      rc := net(|wire|);
      wire := wire + [SentPublish(m, rc)];
    }

    method SendCommand(command: byte, mid: uint16) returns (rc: int)
      modifies this`wire
      ensures rc == net(|old(wire)|) && wire == old(wire) + [SentAck(command, mid, rc)]
      ensures Step(Now(), rc) == SendAck(old(Now()), command, mid, net)
    {
      rc := net(|wire|);
      wire := wire + [SentAck(command, mid, rc)];
    }

    // ---------- messages_mosq.c ----------

    /** Changing one outbound message in place. */
    method UpdateOut(cur: Node, ghost k: nat, m: Message)
      requires Valid() && k < |outList.nodes| && outList.nodes[k] == cur
      modifies cur`msg
      ensures Valid() && cur.msg == m
      ensures outList.Contents() == old(outList.Contents())[k := m]
      ensures inList.Contents() == old(inList.Contents())
    {
      outList.Update(cur, k, m);
      assert forall i | 0 <= i < |inList.nodes| :: inList.nodes[i].msg == old(inList.nodes[i].msg);
    }

    /** Mark one message as handed out, and send it. */
    method ReleaseOne(cur: Node, ghost k: nat) returns (rc: int)
      requires Valid() && k < |outList.nodes| && outList.nodes[k] == cur && cur.msg.qos > 0
      modifies this`wire, cur`msg
      ensures Valid() && rc == net(|old(wire)|)
      ensures wire == old(wire) + [SentPublish(Release(old(cur.msg)), rc)]
      ensures outList.Contents() == old(outList.Contents())[k := Release(old(outList.Contents())[k])]
      ensures inList.Contents() == old(inList.Contents())
    {
      var m := cur.msg;
      if m.qos == 1 {
        UpdateOut(cur, k, m.(state := WaitForPuback));
      } else if m.qos == 2 {
        UpdateOut(cur, k, m.(state := WaitForPubrec));
      }
      rc := SendPublish(cur.msg);
    }

    /** message__release_to_inflight. */
    method ReleaseToInflightOut() returns (rc: int)
      requires Valid()
      modifies this`wire, this`outQuota, outList.nodes
      ensures Valid() && outList.nodes == old(outList.nodes)
      ensures Walk(outList.Contents(), outQuota, wire, rc) ==
              ReleaseToInflight(old(outList.Contents()), old(outQuota), old(wire), net)
      ensures inList.Contents() == old(inList.Contents())
    {
      hide ReleaseToInflight, Passed, MessageList.Valid, MessageList.Contents;
      outList.Start();
      ghost var whole := ReleaseToInflight(outList.Contents(), outQuota, wire, net);
      ghost var k := 0;
      assert outList.Contents()[..0] == [] && outList.Contents()[0..] == outList.Contents();
      PassedNone(whole);
      var cur := outList.head;
      while cur != null
        invariant Valid() && k <= |outList.nodes| && cur == outList.NodeAt(k)
        invariant inList.Contents() == old(inList.Contents())
        invariant whole == Passed(outList.Contents()[..k], ReleaseToInflight(outList.Contents()[k..], outQuota, wire, net))
        decreases |outList.nodes| - k
      {
        outList.At(k);
        if outQuota == 0 {
          ReleaseEnd(outList.Contents(), k, outQuota, wire, net);
          return SUCCESS;
        }
        ReleaseTurn(outList.Contents(), k, outQuota, wire, net);
        if cur.msg.qos > 0 && cur.msg.state == Invalid {
          rc := ReleaseOne(cur, k);
          if rc != SUCCESS { return rc; }
          DecrementSendQuota();
        }
        outList.At(k);
        cur := cur.next;
        k := k + 1;
      }
      ReleaseEnd(outList.Contents(), k, outQuota, wire, net);
      return SUCCESS;
    }

    /** message__remove: the first entry with the identifier, if its QoS fits. */
    method Remove(list: MessageList, mid: uint16, qos: nat) returns (rc: int, message: Node?)
      requires list.Valid()
      modifies list`head, list`nodes, list`queueLen, list.nodes
      ensures list.Valid() && forall i | 0 <= i < |list.nodes| :: list.nodes[i] in old(list.nodes)
      ensures match Find(old(list.Contents()), mid, qos)
              case Found(k) =>
                && rc == SUCCESS && message != null && message.msg == old(list.Contents())[k]
                && list.Contents() == Without(old(list.Contents()), k) && list.queueLen == old(list.queueLen) - 1
              case WrongQos => rc == ERR_PROTOCOL && list.Contents() == old(list.Contents()) && list.queueLen == old(list.queueLen)
              case Missing => rc == ERR_NOT_FOUND && list.Contents() == old(list.Contents()) && list.queueLen == old(list.queueLen)
    {
      hide Without;
      ghost var c := list.Contents();
      ghost var k := 0;
      var cur := list.head;
      while cur != null
        invariant list.Valid() && k <= |list.nodes| && cur == list.NodeAt(k)
        invariant list.nodes == old(list.nodes) && list.Contents() == c && list.queueLen == old(list.queueLen)
        invariant forall i | 0 <= i < k :: c[i].mid != mid
        decreases |list.nodes| - k
      {
        assert cur.msg == c[k];
        if cur.msg.mid == mid {
          IndexOfFirst(c, mid, k);
          if cur.msg.qos != qos { return ERR_PROTOCOL, null; }
          list.Delete(cur, k);
          list.queueLen := list.queueLen - 1;
          WithoutIs(c, k);
          return SUCCESS, cur;
        }
        cur := cur.next;
        k := k + 1;
      }
      IndexOfNone(c, mid);
      return ERR_NOT_FOUND, null;
    }

    /** message__out_update. */
    method OutUpdate(mid: uint16, st: MsgState, qos: nat) returns (rc: int)
      requires Valid()
      modifies outList.nodes
      ensures Valid() && outList.nodes == old(outList.nodes)
      ensures match Find(old(outList.Contents()), mid, qos)
              case Found(k) =>
                rc == SUCCESS && outList.Contents() == old(outList.Contents())[k := old(outList.Contents())[k].(state := st)]
              case WrongQos => rc == ERR_PROTOCOL && outList.Contents() == old(outList.Contents())
              case Missing => rc == ERR_NOT_FOUND && outList.Contents() == old(outList.Contents())
      ensures inList.Contents() == old(inList.Contents())
    {
      ghost var c := outList.Contents();
      ghost var k := 0;
      var cur := outList.head;
      while cur != null
        invariant Valid() && k <= |outList.nodes| && cur == outList.NodeAt(k) && outList.Contents() == c
        invariant inList.Contents() == old(inList.Contents())
        invariant forall i | 0 <= i < k :: c[i].mid != mid
        decreases |outList.nodes| - k
      {
        assert cur.msg == c[k];
        if cur.msg.mid == mid {
          IndexOfFirst(c, mid, k);
          if cur.msg.qos != qos { return ERR_PROTOCOL; }
          UpdateOut(cur, k, cur.msg.(state := st));
          return SUCCESS;
        }
        cur := cur.next;
        k := k + 1;
      }
      IndexOfNone(c, mid);
      return ERR_NOT_FOUND;
    }

    /** What message__retry_check sends for one message. */
    method Resend(m: Message)
      modifies this`wire
      ensures wire == old(wire) + RetrySends(m, net(|old(wire)|))
    {
      var rc;
      match m.state {
        case PublishQos1 | PublishQos2 => rc := SendPublish(m.(dup := true));
        case WaitForPubrel => rc := SendCommand(CMD_PUBREC, m.mid);
        case ResendPubrel | WaitForPubcomp => rc := SendCommand(CMD_PUBREL + 2, m.mid);
        case _ =>
      }
    }

    /** What message__retry_check does about one message. */
    method RetryOne(cur: Node, ghost k: nat)
      requires Valid() && k < |outList.nodes| && outList.nodes[k] == cur
      modifies this`wire, cur`msg
      ensures Valid()
      ensures outList.Contents() == old(outList.Contents())[k := RetryMessage(old(outList.Contents())[k])]
      ensures wire == old(wire) + RetrySends(old(outList.Contents())[k], net(|old(wire)|))
      ensures inList.Contents() == old(inList.Contents())
    {
      hide RetrySends, MessageList.Valid, MessageList.Contents;
      outList.At(k);
      NoChange(outList.Contents(), k);
      var m := cur.msg;
      if m.state in {PublishQos1, PublishQos2, WaitForPubrel, ResendPubrel, WaitForPubcomp} {
        UpdateOut(cur, k, m.(dup := true));
      }
      Resend(m);
    }

    /** message__retry_check. */
    method RetryCheck()
      requires Valid()
      modifies this`wire, outList.nodes
      ensures Valid() && outList.nodes == old(outList.nodes)
      ensures RetryWalk(outList.Contents(), wire) == Retry(old(outList.Contents()), old(wire), net)
      ensures inList.Contents() == old(inList.Contents())
    {
      hide Retry, RetryMessage, RetrySends, MessageList.Valid, MessageList.Contents;
      outList.Start();
      ghost var whole := Retry(outList.Contents(), wire, net);
      ghost var k := 0;
      assert outList.Contents()[..0] == [] && outList.Contents()[0..] == outList.Contents();
      assert [] + whole.list == whole.list;
      var cur := outList.head;
      while cur != null
        invariant Valid() && k <= |outList.nodes| && cur == outList.NodeAt(k)
        invariant inList.Contents() == old(inList.Contents())
        invariant whole == Retried(outList.Contents()[..k], Retry(outList.Contents()[k..], wire, net))
        decreases |outList.nodes| - k
      {
        RetryTurn(outList.Contents(), k, wire, net);
        RetryOne(cur, k);
        outList.At(k);
        cur := cur.next;
        k := k + 1;
      }
      RetryEnd(outList.Contents(), wire, net);
    }

    /** DL_DELETE on the inbound list; what came behind is now in its place. */
    method DropInbound(cur: Node, ghost k: nat)
      requires Valid() && k < |inList.nodes| && inList.nodes[k] == cur
      modifies inList`head, inList`nodes, inList.nodes
      ensures Valid()
      ensures |inList.nodes| == |old(inList.nodes)| - 1 && inList.NodeAt(k) == old(cur.next)
      ensures forall i | 0 <= i < |inList.nodes| :: inList.nodes[i] in old(inList.nodes)
      ensures inList.Contents()[..k] == old(inList.Contents())[..k]
      ensures inList.Contents()[k..] == old(inList.Contents())[k + 1..]
      ensures outList.Contents() == old(outList.Contents())
    {
      inList.At(k);
      SlicesCut(inList.Contents(), k);
      hide MessageList.Valid;
      inList.Delete(cur, k);
      assert forall i | 0 <= i < |inList.nodes| :: inList.nodes[i] == old(inList.nodes)[if i < k then i else i + 1];
      assert forall i | 0 <= i < |outList.nodes| :: outList.nodes[i] !in old(inList.nodes);
      assert forall i | 0 <= i < |outList.nodes| :: outList.nodes[i].msg == old(outList.nodes[i].msg);
    }

    /** One turn of the inbound loop of message__reconnect_reset: only a QoS 2
        entry stays, and is charged to the quota. */
    method ResetInboundOne(cur: Node, ghost k: nat) returns (tmp: Node?)
      requires Valid() && k < |inList.nodes| && inList.nodes[k] == cur
      modifies this`inQuota, inList`head, inList`nodes, inList`queueLen, inList.nodes
      ensures Valid() && tmp == old(cur.next) && inList.queueLen == old(inList.queueLen) + 1
      ensures forall i | 0 <= i < |inList.nodes| :: inList.nodes[i] in old(inList.nodes)
      ensures outList.Contents() == old(outList.Contents())
      ensures var c := old(inList.Contents());
              if c[k].qos == 2 then inList.Contents() == c && inList.nodes == old(inList.nodes) && inQuota == Decrement(old(inQuota))
              else
                && |inList.nodes| == |old(inList.nodes)| - 1 && inList.NodeAt(k) == tmp && inQuota == old(inQuota)
                && inList.Contents()[..k] == c[..k] && inList.Contents()[k..] == c[k + 1..]
    {
      hide MessageList.Valid, MessageList.Contents, Now;
      inList.At(k);
      inList.queueLen := inList.queueLen + 1;
      tmp := cur.next;
      if cur.msg.qos != 2 {
        DropInbound(cur, k);
      } else {
        DecrementReceiveQuota();
      }
    }

    /** The inbound loop of message__reconnect_reset: entries are deleted while
        the list is walked. */
    method ResetInbound()
      requires Valid()
      modifies this`inQuota, inList`head, inList`nodes, inList`queueLen, inList.nodes
      ensures Valid()
      ensures inList.queueLen == |old(inList.Contents())|
      ensures ResetWalk(inList.Contents(), inQuota) == ResetIn(old(inList.Contents()), inMaximum)
      ensures outList.Contents() == old(outList.Contents())
    {
      hide ResetIn, Kept, MessageList.Valid, MessageList.Contents;
      inList.Start();
      ghost var l := inList.Contents();
      ghost var whole := ResetIn(l, inMaximum);
      ghost var j, k := 0, 0;
      assert l[..0] == [] && l[0..] == l;
      KeptNone(whole);
      inQuota := inMaximum;
      inList.queueLen := 0;
      var cur := inList.head;
      while cur != null
        invariant Valid() && j <= |l| && k <= |inList.nodes| && cur == inList.NodeAt(k)
        invariant forall i | 0 <= i < |inList.nodes| :: inList.nodes[i] in old(inList.nodes)
        invariant inList.queueLen == j && inList.Contents()[k..] == l[j..]
        invariant outList.Contents() == old(outList.Contents())
        invariant whole == Kept(inList.Contents()[..k], ResetIn(l[j..], inQuota))
        decreases |inList.nodes| - k
      {
        ghost var c := inList.Contents();
        SlicesAgree(c, k, l, j);
        ResetInTurn(c[..k], l, j, inQuota);
        inList.At(k);
        cur := ResetInboundOne(cur, k);
        if l[j].qos == 2 { k := k + 1; }
        j := j + 1;
      }
      assert inList.Contents()[k..] == [] && j == |l|;
      ResetInEnd(inList.Contents(), l, inQuota);
    }

    /** What message__reconnect_reset does to one outbound message. */
    method ResetOne(cur: Node, ghost k: nat)
      requires Valid() && k < |outList.nodes| && outList.nodes[k] == cur
      modifies this`outQuota, cur`msg
      ensures Valid()
      ensures outList.Contents() == old(outList.Contents())[k := ResetMessage(old(outList.Contents())[k], old(outQuota))]
      ensures outQuota == ResetQuota(old(outQuota))
      ensures inList.Contents() == old(inList.Contents())
    {
      var m := cur.msg;
      if outQuota != 0 {
        DecrementSendQuota();
        if m.qos == 1 {
          m := m.(state := PublishQos1);
        } else if m.qos == 2 {
          if m.state == WaitForPubrec {
            m := m.(state := PublishQos2);
          } else if m.state == WaitForPubcomp {
            m := m.(state := ResendPubrel);
          }
        }
      } else {
        m := m.(state := Invalid);
      }
      UpdateOut(cur, k, m);
    }

    /** The outbound loop of message__reconnect_reset. */
    method ResetOutbound()
      requires Valid()
      modifies this`outQuota, outList`queueLen, outList.nodes
      ensures Valid() && outList.nodes == old(outList.nodes)
      ensures outList.queueLen == |old(outList.Contents())|
      ensures ResetWalk(outList.Contents(), outQuota) == ResetOut(old(outList.Contents()), outMaximum)
      ensures inList.Contents() == old(inList.Contents())
    {
      hide ResetOut, Kept, ResetMessage, ResetQuota, MessageList.Valid, MessageList.Contents;
      outList.Start();
      ghost var whole := ResetOut(outList.Contents(), outMaximum);
      ghost var k := 0;
      assert outList.Contents()[..0] == [] && outList.Contents()[0..] == outList.Contents();
      KeptNone(whole);
      outQuota := outMaximum;
      outList.queueLen := 0;
      var cur := outList.head;
      while cur != null
        invariant Valid() && k <= |outList.nodes| && cur == outList.NodeAt(k) && outList.queueLen == k
        invariant inList.Contents() == old(inList.Contents())
        invariant whole == Kept(outList.Contents()[..k], ResetOut(outList.Contents()[k..], outQuota))
        decreases |outList.nodes| - k
      {
        ResetOutTurn(outList.Contents(), k, outQuota);
        outList.queueLen := outList.queueLen + 1;
        ResetOne(cur, k);
        outList.At(k);
        cur := cur.next;
        k := k + 1;
      }
      ResetOutEnd(outList.Contents(), outQuota);
    }

    /** message__reconnect_reset. */
    method MessageReconnectReset()
      requires Valid()
      modifies this`inQuota, this`outQuota, inList, inList.nodes, outList, outList.nodes
      ensures Valid() && Now() == ReconnectReset(old(Now()))
    {
      hide ResetIn, ResetOut, MessageList.Valid;
      ResetInbound();
      ResetOutbound();
    }

    /** message__release_to_inflight, on the whole state. */
    method ReleaseMessages() returns (rc: int)
      requires Valid()
      modifies this`wire, this`outQuota, outList.nodes
      ensures Valid() && outList.nodes == old(outList.nodes)
      ensures Step(Now(), rc) == ReleaseMore(old(Now()), net)
    {
      hide ReleaseToInflight, MessageList.Valid;
      rc := ReleaseToInflightOut();
    }

    /** DL_APPEND on the outbound list. */
    method AppendOut(m: Message)
      requires Valid()
      modifies outList`head, outList`nodes, outList.nodes
      ensures Valid()
      ensures outList.Contents() == old(outList.Contents()) + [m]
      ensures inList.Contents() == old(inList.Contents())
      ensures |outList.nodes| == |old(outList.nodes)| + 1
      ensures fresh(outList.nodes[|outList.nodes| - 1]) && outList.nodes[..|outList.nodes| - 1] == old(outList.nodes)
    {
      hide MessageList.Valid;
      var message := new Node(m);
      assert forall i | 0 <= i < |inList.nodes| :: inList.nodes[i] != message && inList.nodes[i] !in outList.nodes;
      outList.Append(message);
      assert forall i | 0 <= i < |inList.nodes| :: inList.nodes[i].msg == old(inList.nodes[i].msg);
    }

    /** message__queue, outbound. */
    method QueueOut(m: Message) returns (rc: int)
      requires Valid()
      modifies this`wire, this`outQuota, this`notes, outList, outList.nodes
      ensures Valid()
      ensures var s := old(Now());
              Step(Now(), rc) ==
              ReleaseMore(s.(out := s.out.(list := s.out.list + [m], queueLen := s.out.queueLen + 1),
                             notes := s.notes + [Appended(m.serial)]), net)
    {
      hide ReleaseMore, MessageList.Valid;
      AppendOut(m);
      outList.queueLen := outList.queueLen + 1;
      notes := notes + [Appended(m.serial)];
      rc := ReleaseMessages();
    }

    /** DL_APPEND on the inbound list. */
    method AppendIn(m: Message)
      requires Valid()
      modifies inList`head, inList`nodes, inList.nodes
      ensures Valid()
      ensures inList.Contents() == old(inList.Contents()) + [m]
      ensures outList.Contents() == old(outList.Contents())
      ensures forall i | 0 <= i < |inList.nodes| :: inList.nodes[i] in old(inList.nodes) || fresh(inList.nodes[i])
    {
      hide MessageList.Valid;
      var message := new Node(m);
      assert forall i | 0 <= i < |outList.nodes| :: outList.nodes[i] != message && outList.nodes[i] !in inList.nodes;
      inList.Append(message);
      assert forall i | 0 <= i < |outList.nodes| :: outList.nodes[i].msg == old(outList.nodes[i].msg);
    }

    /** message__queue, inbound; nothing is released there. */
    method QueueIn(m: Message)
      requires Valid()
      modifies this`notes, this`stored, inList, inList.nodes
      ensures Valid()
      ensures forall i | 0 <= i < |inList.nodes| :: inList.nodes[i] in old(inList.nodes) || fresh(inList.nodes[i])
      ensures var s := old(Now());
              Now() == s.(inn := s.inn.(list := s.inn.list + [m], queueLen := s.inn.queueLen + 1, stored := s.inn.stored + 1),
                          notes := s.notes + [Stored(m.serial)])
    {
      hide MessageList.Valid;
      AppendIn(m);
      inList.queueLen := inList.queueLen + 1;
      stored := stored + 1;
      notes := notes + [Stored(m.serial)];
    }

    /** message__delete on the outbound list, and the publish notification that
        follows it. */
    method DeleteOut(mid: uint16, qos: nat, refused: bool) returns (rc: int)
      requires Valid()
      modifies this`notes, outList`head, outList`nodes, outList`queueLen, outList.nodes
      ensures Valid() && forall i | 0 <= i < |outList.nodes| :: outList.nodes[i] in old(outList.nodes)
      ensures match Find(old(outList.Contents()), mid, qos)
              case Found(k) => rc == SUCCESS && Now() == Complete(old(Now()), k, refused)
              case WrongQos => rc == ERR_PROTOCOL && Now() == old(Now())
              case Missing => rc == ERR_NOT_FOUND && Now() == old(Now())
    {
      hide Without, MessageList.Valid;
      var message;
      rc, message := Remove(outList, mid, qos);
      assert forall i | 0 <= i < |inList.nodes| :: inList.nodes[i] !in old(outList.nodes);
      assert forall i | 0 <= i < |inList.nodes| :: inList.nodes[i].msg == old(inList.nodes[i].msg);
      if rc == SUCCESS { notes := notes + [Ending(message.msg, refused)]; }
    }

    /** message__remove on the inbound list, and what becomes of the message. */
    method RemoveIn(mid: uint16, deliver: bool) returns (rc: int)
      requires Valid()
      modifies this`notes, inList`head, inList`nodes, inList`queueLen, inList.nodes
      ensures Valid()
      ensures forall i | 0 <= i < |inList.nodes| :: inList.nodes[i] in old(inList.nodes)
      ensures match Find(old(inList.Contents()), mid, 2)
              case Found(k) =>
                var m := old(inList.Contents())[k];
                rc == SUCCESS && Now() == TakeOut(old(Now()), k, if deliver then Delivered(m) else Dropped(m.serial))
              case WrongQos => rc == ERR_PROTOCOL && Now() == old(Now())
              case Missing => rc == ERR_NOT_FOUND && Now() == old(Now())
    {
      hide Without, MessageList.Valid;
      var message;
      rc, message := Remove(inList, mid, 2);
      assert forall i | 0 <= i < |outList.nodes| :: outList.nodes[i] !in old(inList.nodes);
      assert forall i | 0 <= i < |outList.nodes| :: outList.nodes[i].msg == old(outList.nodes[i].msg);
      if rc == SUCCESS {
        notes := notes + [if deliver then Delivered(message.msg) else Dropped(message.msg.serial)];
      }
    }

    // ---------- the handlers ----------

    /** handle__pubackcomp; `qos` tells PUBACK from PUBCOMP. */
    method HandlePubackcomp(packet: Packet, qos: nat) returns (rc: int)
      requires Valid() && packet.Readable() && packet.pos == 0
      modifies this`outQuota, this`wire, this`notes, outList, outList.nodes, packet`pos
      ensures Valid()
      ensures forall i | 0 <= i < |outList.nodes| :: outList.nodes[i] in old(outList.nodes)
      ensures Step(Now(), rc) == PubAckComp(old(Now()), qos, AckAt(protocol, CMD_PUBACK, packet.Received()), net)
    {
      hide AckAt, ReleaseMore, Complete, MessageList.Valid, Now;
      if state != Active { return ERR_PROTOCOL; }
      IncrementSendQuota();
      var mid, reason;
      rc, mid, reason := ReadAck(protocol, CMD_PUBACK, packet);
      if rc != SUCCESS { return rc; }
      rc := DeleteOut(mid, qos, false);
      if rc != SUCCESS && rc != ERR_NOT_FOUND { return rc; }
      var ignored := ReleaseMessages();
      return SUCCESS;
    }

    /** The success branch of handle__pubrec. */
    method Received(mid: uint16) returns (rc: int)
      requires Valid()
      modifies this`wire, outList.nodes
      ensures Valid() && outList.nodes == old(outList.nodes)
      ensures Step(Now(), rc) == ReceivedStep(old(Now()), mid, net)
    {
      hide MessageList.Valid;
      rc := OutUpdate(mid, WaitForPubcomp, 2);
      if rc != SUCCESS && rc != ERR_NOT_FOUND { return rc; }
      rc := SendCommand(CMD_PUBREL + 2, mid);
    }

    /** handle__pubrec. */
    method HandlePubrec(packet: Packet) returns (rc: int)
      requires Valid() && packet.Readable() && packet.pos == 0
      modifies this`outQuota, this`wire, this`notes, outList, outList.nodes, packet`pos
      ensures Valid()
      ensures forall i | 0 <= i < |outList.nodes| :: outList.nodes[i] in old(outList.nodes)
      ensures Step(Now(), rc) == PubRec(old(Now()), AckAt(protocol, CMD_PUBREC, packet.Received()), net)
    {
      hide AckAt, ReleaseMore, Complete, MessageList.Valid, Now;
      if state != Active { return ERR_PROTOCOL; }
      var mid, reason;
      rc, mid, reason := ReadAck(protocol, CMD_PUBREC, packet);
      if rc != SUCCESS { return rc; }
      if reason < 0x80 || protocol != V5 {
        rc := Received(mid);
      } else {
        rc := DeleteOut(mid, 2, true);
        IncrementSendQuota();
        rc := ReleaseMessages();
        return SUCCESS;
      }
    }

    /** handle__publish. */
    method HandlePublish(packet: Packet) returns (rc: int)
      requires Valid() && packet.Readable() && packet.pos == 0
      modifies this`inQuota, this`wire, this`notes, this`stored, inList, inList.nodes, packet`pos
      ensures Valid()
      ensures forall i | 0 <= i < |inList.nodes| :: inList.nodes[i] in old(inList.nodes) || fresh(inList.nodes[i])
      ensures Step(Now(), rc) == PublishIn(old(Now()), PublishAt(protocol, packet.command, packet.Received()), net)
    {
      hide RestAt, MessageList.Valid, Now, SendAck, ChargeIn, CreditIn;
      if state != Active { return ERR_PROTOCOL; }
      var topic;
      rc, topic := ReadTopic(packet);
      if rc != SUCCESS { return rc; }
      var qos := QosOf(packet.command);
      RestQos(protocol, packet.command, topic, packet.Received(), packet.pos);
      if qos > 0 && protocol == V5 && inQuota == 0 { return ERR_PROTOCOL; }
      var mid, content;
      rc, mid, content := ReadRest(protocol, packet, topic);
      if rc != SUCCESS { return rc; }
      rc := AcceptPublish(qos, mid, packet.command / 8 % 2 == 1, content);
    }

    /** The switch at the end of handle__publish. */
    method AcceptPublish(qos: nat, mid: uint16, dup: bool, content: Content) returns (rc: int)
      requires Valid() && state == Active && !(qos > 0 && protocol == V5 && inQuota == 0)
      modifies this`inQuota, this`wire, this`notes, this`stored, inList, inList.nodes
      ensures Valid()
      ensures forall i | 0 <= i < |inList.nodes| :: inList.nodes[i] in old(inList.nodes) || fresh(inList.nodes[i])
      ensures Step(Now(), rc) == PublishIn(old(Now()), Publish(qos, mid, dup, content), net)
    {
      hide MessageList.Valid, Now;
      if qos == 0 {
        Deliver(0, content);
        return SUCCESS;
      } else if qos == 1 {
        rc := AnswerAtOnce(mid, content);
      } else if qos == 2 {
        rc := Store(mid, dup, content);
      } else {
        return ERR_PROTOCOL;
      }
    }

    method AnswerAtOnce(mid: uint16, content: Content) returns (rc: int)
      requires Valid()
      modifies this`inQuota, this`wire, this`notes
      ensures Valid()
      ensures var a := SendAck(CreditIn(ChargeIn(old(Now()))), CMD_PUBACK, mid, net);
              Step(Now(), rc) == a.(s := a.s.(notes := a.s.notes + [DeliveredAtOnce(1, content)]))
    {
      hide MessageList.Valid, Now, SendAck, ChargeIn, CreditIn;
      DecrementReceiveQuota();
      IncrementReceiveQuota();
      rc := SendCommand(CMD_PUBACK, mid);
      Deliver(1, content);
    }

    method Store(mid: uint16, dup: bool, content: Content) returns (rc: int)
      requires Valid()
      modifies this`inQuota, this`wire, this`notes, this`stored, inList, inList.nodes
      ensures Valid()
      ensures forall i | 0 <= i < |inList.nodes| :: inList.nodes[i] in old(inList.nodes) || fresh(inList.nodes[i])
      ensures var a := SendAck(ChargeIn(old(Now())), CMD_PUBREC, mid, net);
              var i := a.s.inn;
              var m := Message(i.stored + 1, mid, 2, WaitForPubrel, dup, content);
              Step(Now(), rc) == a.(s := a.s.(inn := i.(list := i.list + [m], queueLen := i.queueLen + 1, stored := i.stored + 1),
                                              notes := a.s.notes + [Stored(m.serial)]))
    {
      hide MessageList.Valid, Now, SendAck, ChargeIn;
      DecrementReceiveQuota();
      rc := SendCommand(CMD_PUBREC, mid);
      QueueIn(Message(stored + 1, mid, 2, WaitForPubrel, dup, content));
    }

    /** The message callback for QoS 0 and 1. */
    method Deliver(qos: nat, content: Content)
      modifies this`notes
      ensures Now() == old(Now()).(notes := old(notes) + [DeliveredAtOnce(qos, content)])
    {
      notes := notes + [DeliveredAtOnce(qos, content)];
    }

    /** handle__pubrel. */
    method HandlePubrel(packet: Packet) returns (rc: int)
      requires Valid() && packet.Readable() && packet.pos == 0
      modifies this`inQuota, this`wire, this`notes, inList, inList.nodes, packet`pos
      ensures Valid()
      ensures forall i | 0 <= i < |inList.nodes| :: inList.nodes[i] in old(inList.nodes)
      ensures Step(Now(), rc) ==
              PubRel(old(Now()), packet.command % 16, AckAt(protocol, CMD_PUBREL, packet.Received()), net)
    {
      hide AckAt, TakeOut, MessageList.Valid, Now;
      if state != Active { return ERR_PROTOCOL; }
      if protocol != V31 && packet.command % 16 != 2 { return ERR_PROTOCOL; }
      var mid, reason;
      rc, mid, reason := ReadAck(protocol, CMD_PUBREL, packet);
      if rc != SUCCESS { return rc; }
      IncrementReceiveQuota();
      rc := SendCommand(CMD_PUBCOMP, mid);
      if rc != SUCCESS {
        var ignored := RemoveIn(mid, false);
        return rc;
      }
      rc := RemoveIn(mid, true);
      if rc == ERR_NOT_FOUND { return SUCCESS; }
    }

    /** handle__connack. */
    method HandleConnack(packet: Packet) returns (rc: int)
      requires Valid() && packet.Readable() && packet.pos == 0
      modifies this, outList.nodes, packet`pos
      ensures Valid() && outList.nodes == old(outList.nodes)
      ensures match ConnackAt(protocol, old(id).Some?, packet.Received())
              case BadConnack(e) => rc == e && Now() == old(Now()) && Agreed() == old(Agreed())
              case Connack(reason, ps) =>
                && Step(Now(), rc) == Delivery.Connack(old(Now()), reason, ReceiveMaximumOf(ps), net)
                && Agreed() == TakenFrom(ps, old(Agreed()))
    {
      hide ConnackAt, ReceiveMaximumOf, TakenFrom, Now, Delivery.Connack;
      var reason, properties;
      rc, reason, properties := ReadConnack(packet);
      if rc != SUCCESS { return rc; }
      TakeLimits(properties);
      rc := Accept(reason, ReceiveMaximumOf(properties));
    }

    /** handle__disconnect: the connection is over, the lists are kept for the next. */
    method HandleDisconnect(packet: Packet) returns (rc: int)
      requires Valid() && packet.Readable() && packet.pos == 0
      modifies this`state, packet`pos
      ensures Valid()
      ensures match DisconnectAt(protocol, packet.Received())
              case Failed(e) => rc == e && Now() == old(Now())
              case Parsed(_, _) => rc == SUCCESS && Now() == old(Now()).(state := Disconnected)
    {
      hide PropertiesAt;
      var reason, properties;
      if protocol != V5 { return ERR_PROTOCOL; }
      rc, reason := packet.ReadByte();
      if rc != SUCCESS { return rc; }
      if packet.remainingLength > 2 {
        rc, properties := ReadAll(CMD_DISCONNECT, packet);
        if rc != SUCCESS { return rc; }
      }
      state := Disconnected;
      return SUCCESS;
    }

    /** The reading part of handle__connack. */
    method ReadConnack(packet: Packet) returns (rc: int, reason: byte, properties: seq<Property>)
      requires packet.Readable() && packet.pos == 0
      modifies packet`pos
      ensures match ConnackAt(protocol, id.Some?, packet.Received())
              case BadConnack(e) => rc == e && rc != SUCCESS
              case Connack(r, ps) => rc == SUCCESS && reason == r && properties == ps
    {
      hide PropertiesAt, FirstOf;
      var flags;
      reason, properties := 0, [];
      rc, flags := packet.ReadByte();
      if rc != SUCCESS { return; }
      rc, reason := packet.ReadByte();
      if rc != SUCCESS { return; }
      if protocol == V5 {
        rc, properties := ReadAll(CMD_CONNACK, packet);
        if rc != SUCCESS { return; }
      }
      var clientid := FirstOf(properties, ASSIGNED_CLIENT_IDENTIFIER);
      if clientid.Some? && id.Some? { rc := ERR_PROTOCOL; }
    }

    method TakeLimits(ps: seq<Property>)
      modifies this`id, this`maximumQos, this`maximumPacketSize, this`keepalive
      ensures Agreed() == TakenFrom(ps, old(Agreed()))
      ensures Now() == old(Now())
    {
      hide FirstOf, TextOr, ByteOr, Int16Or, Int32Or;
      id := TextOr(ps, ASSIGNED_CLIENT_IDENTIFIER, id);
      maximumQos := ByteOr(ps, MAXIMUM_QOS, maximumQos);
      keepalive := Int16Or(ps, SERVER_KEEP_ALIVE, keepalive);
      maximumPacketSize := Int32Or(ps, MAXIMUM_PACKET_SIZE, maximumPacketSize);
    }

    /** The rest of handle__connack: the broker's Receive Maximum, a fresh quota,
        and for an accepted connection the retry. */
    method Accept(reason: byte, receiveMaximum: Option<uint16>) returns (rc: int)
      requires Valid()
      modifies this`outMaximum, this`outQuota, this`state, this`wire, outList.nodes
      ensures Valid() && outList.nodes == old(outList.nodes)
      ensures Step(Now(), rc) == Delivery.Connack(old(Now()), reason, receiveMaximum, net)
    {
      hide Retry, MessageList.Valid;
      if receiveMaximum.Some? { outMaximum := receiveMaximum.value; }
      outQuota := outMaximum;
      if reason == 0 {
        if state != Disconnecting { state := Active; }
        RetryCheck();
        return SUCCESS;
      } else if reason <= 5 {
        return ERR_CONN_REFUSED;
      } else {
        return ERR_PROTOCOL;
      }
    }

    // ---------- the interface ----------

    /** mosquitto_publish_v5. */
    method PublishV5(topic: array?<byte>, payload: seq<byte>, qos: int, retain: bool, properties: seq<Property>, clientGenerated: bool)
      returns (rc: int, mid: uint16)
      requires Valid() && Terminated(topic) && forall p | p in properties :: Encodable(p)
      modifies this`lastMid, this`drawn, this`outQuota, this`wire, this`notes, outList, outList.nodes
      ensures Valid()
      ensures var ps := OutgoingProperties(properties, clientGenerated);
              var text := old(TopicText(topic));
              var fault := PublishFault(Limits(protocol, maximumQos, maximumPacketSize), text, payload, qos, properties, ps);
              if fault != SUCCESS then rc == fault && Now() == old(Now())
              else
                && mid == NextMid(old(lastMid))
                && Step(Now(), rc) ==
                   PublishOut(old(Now()), qos, Content(if text == [] then None else Some(text), payload, retain, ps), net)
    {
      hide PublishFault, ReleaseMore, MessageList.Valid, Utf8.WellFormed, Now, PublishOut;
      mid := 0;
      var outgoing;
      rc, outgoing := Admit(Limits(protocol, maximumQos, maximumPacketSize), topic, payload, qos, properties, clientGenerated);
      if rc != SUCCESS { return rc, 0; }
      assert 0 <= qos <= 2 by {
        AdmittedExactly(Limits(protocol, maximumQos, maximumPacketSize), TopicText(topic), payload, qos, properties, clientGenerated);
      }
      var name: Option<seq<byte>> := if topic == null || topic.Length == 1 then None else Some(topic[..topic.Length - 1]);
      rc, mid := PublishAdmitted(qos, Content(name, payload, retain, outgoing));
    }

    /** mosquitto__connect_init. */
    method Init()
      modifies this`inQuota, this`outQuota
      ensures Now() == ConnectInit(old(Now()))
    {
      inQuota := inMaximum;
      outQuota := outMaximum;
    }

    /** send__connect: the CONNECT packet, and the receive quota that follows from
        a Receive Maximum of the application. */
    method Connect(c: Connecting.Connect) returns (rc: int, packet: Packet?)
      requires inMaximum <= 65535 && Connecting.Sendable(protocol, c, inMaximum)
      requires |Connecting.ConnectBody(protocol, c, inMaximum)| + Connecting.CutAll(c) <= 0x7FFF_FFFF
      modifies this`inMaximum, this`inQuota
      ensures Now() ==
              if protocol == V5 && ReceiveMaximumOf(c.properties).Some? && rc in {SUCCESS, ERR_PAYLOAD_SIZE}
              then SetReceiveMaximum(old(Now()), ReceiveMaximumOf(c.properties).value) else old(Now())
      ensures rc == SUCCESS ==>
                && packet != null && fresh(packet)
                && Connecting.CutShort(packet, CMD_CONNECT, Connecting.ConnectBody(protocol, c, old(inMaximum)), Connecting.CutAll(c))
    {
      hide Connecting.ConnectBody, Connecting.CutAll, Connecting.CutShort, Connecting.WillSendable;
      var receiveMaximum;
      rc, packet, receiveMaximum := Connecting.SendConnect(protocol, c, inMaximum);
      if receiveMaximum.Some? {
        inMaximum := receiveMaximum.value;
        inQuota := receiveMaximum.value;
      }
    }

    /** A send outside the walks. */
    method SendNow(m: Message) returns (rc: int)
      modifies this`wire
      ensures rc == net(|old(wire)|)
      ensures Now() == old(Now()).(wire := old(wire) + [SentPublish(m, rc)])
    {
      rc := SendPublish(m);
    }

    /** mosquitto_publish_v5 behind its checks. */
    method PublishAdmitted(qos: nat, content: Content) returns (rc: int, mid: uint16)
      requires Valid()
      modifies this`lastMid, this`drawn, this`outQuota, this`wire, this`notes, outList, outList.nodes
      ensures Valid() && mid == NextMid(old(lastMid))
      ensures Step(Now(), rc) == PublishOut(old(Now()), qos, content, net)
    {
      hide ReleaseMore, MessageList.Valid, Now, NextMid;
      mid := MidGenerate();
      if qos == 0 {
        rc := SendNow(Message(drawn, mid, 0, Invalid, false, content));
      } else {
        rc := QueueOut(Message(drawn, mid, qos, Invalid, false, content));
      }
    }
  }

  lemma {:induction false} IndexOfFirst(c: seq<Message>, mid: uint16, k: nat)
    requires k < |c| && c[k].mid == mid && forall i | 0 <= i < k :: c[i].mid != mid
    ensures IndexOf(c, mid) == Some(k)
  {
  }

  lemma IndexOfNone(c: seq<Message>, mid: uint16)
    requires forall i | 0 <= i < |c| :: c[i].mid != mid
    ensures IndexOf(c, mid) == None
  {
  }

  lemma WithoutIs(c: seq<Message>, k: nat)
    requires k < |c|
    ensures Without(c, k) == c[..k] + c[k + 1..]
  {
  }

  // ---------- the reset walks ----------

  function Kept(done: seq<Message>, w: ResetWalk): ResetWalk { w.(list := done + w.list) }

  lemma KeptNone(w: ResetWalk)
    ensures Kept([], w) == w
  {
  }

  lemma ResetInTurn(done: seq<Message>, l: seq<Message>, j: nat, quota: nat)
    requires j < |l|
    ensures Kept(done, ResetIn(l[j..], quota)) ==
            if l[j].qos != 2 then Kept(done, ResetIn(l[j + 1..], quota))
            else Kept(done + [l[j]], ResetIn(l[j + 1..], Decrement(quota)))
  {
  }

  lemma SlicesAgree(c: seq<Message>, k: nat, l: seq<Message>, j: nat)
    requires k < |c| && j <= |l| && c[k..] == l[j..]
    ensures j < |l| && c[k] == l[j] && c[k + 1..] == l[j + 1..] && c[..k + 1] == c[..k] + [c[k]]
  {
  }

  lemma SlicesCut(c: seq<Message>, k: nat)
    requires k < |c|
    ensures var d := c[..k] + c[k + 1..]; d[..k] == c[..k] && d[k..] == c[k + 1..]
  {
  }

  lemma ResetInEnd(done: seq<Message>, l: seq<Message>, quota: nat)
    ensures Kept(done[..|done|], ResetIn(l[|l|..], quota)) == ResetWalk(done, quota)
  {
  }

  /** What a reset makes of one outbound message, and of the quota. */
  function ResetMessage(m: Message, quota: nat): Message { if quota != 0 then ResetState(m) else m.(state := Invalid) }

  function ResetQuota(quota: nat): nat { if quota != 0 then Decrement(quota) else quota }

  lemma ResetOutTurn(c: seq<Message>, k: nat, quota: nat)
    requires k < |c|
    ensures var c' := c[k := ResetMessage(c[k], quota)];
            Kept(c[..k], ResetOut(c[k..], quota)) == Kept(c'[..k + 1], ResetOut(c'[k + 1..], ResetQuota(quota)))
  {
  }

  lemma ResetOutEnd(c: seq<Message>, quota: nat)
    ensures Kept(c[..|c|], ResetOut(c[|c|..], quota)) == ResetWalk(c, quota)
  {
  }

  // ---------- the retry walk ----------

  function Retried(done: seq<Message>, w: RetryWalk): RetryWalk { w.(list := done + w.list) }

  lemma NoChange(c: seq<Message>, k: nat)
    requires k < |c|
    ensures c[k := c[k]] == c
  {
  }

  lemma RetryCons(l: seq<Message>, wire: seq<Sent>, net: Net)
    requires l != []
    ensures var w := Retry(l[1..], wire + RetrySends(l[0], net(|wire|)), net);
            Retry(l, wire, net) == RetryWalk([RetryMessage(l[0])] + w.list, w.wire)
  {
  }

  lemma RetriedOne(done: seq<Message>, m: Message, w: RetryWalk)
    ensures Retried(done, RetryWalk([m] + w.list, w.wire)) == Retried(done + [m], w)
  {
  }

  lemma RetryTurn(c: seq<Message>, k: nat, wire: seq<Sent>, net: Net)
    requires k < |c|
    ensures var c' := c[k := RetryMessage(c[k])];
            Retried(c[..k], Retry(c[k..], wire, net)) ==
            Retried(c'[..k + 1], Retry(c'[k + 1..], wire + RetrySends(c[k], net(|wire|)), net))
  {
    hide Retry, RetryMessage, RetrySends, Retried;
    var l, m := c[k..], RetryMessage(c[k]);
    var c', wire' := c[k := m], wire + RetrySends(c[k], net(|wire|));
    assert l[0] == c[k] && l[1..] == c[k + 1..] == c'[k + 1..] && c'[..k + 1] == c[..k] + [m];
    RetryCons(l, wire, net);
    RetriedOne(c[..k], m, Retry(l[1..], wire', net));
  }

  lemma RetryEnd(c: seq<Message>, wire: seq<Sent>, net: Net)
    ensures Retried(c[..|c|], Retry(c[|c|..], wire, net)) == RetryWalk(c, wire)
  {
  }
}
