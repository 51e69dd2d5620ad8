/**
 * The QoS 1 and 2 delivery state machine as a function from state and event to
 * state: messages_mosq.c, the acknowledgement handlers, the inbound PUBLISH and
 * PUBREL handlers, CONNACK, and the packet identifier generator.
 *
 * Sending can fail at any time.  The n-th send of a run returns `net(n)`, an
 * arbitrary result code; nothing is assumed about it.
 */
module Delivery {
  import opened Mqtt
  import opened Inflight

  type Net = nat -> int

  /** A packet handed to the socket layer, with the result it met. */
  datatype Sent =
    | SentPublish(msg: Message, rc: int)
    | SentAck(command: byte, mid: uint16, rc: int)

  /** What the application is told, and when messages enter the lists. A message
      completed by PUBACK or PUBCOMP is reported to both publish callbacks, one
      refused by PUBREC to the version 5 callback only. */
  datatype Note =
    | Appended(serial: nat)
    | Completed(serial: nat, mid: uint16)
    | Refused(serial: nat, mid: uint16)
    | Stored(serial: nat)
    | Delivered(msg: Message)
    | DeliveredAtOnce(qos: nat, content: Content)
    | Dropped(serial: nat)

  /** struct mosquitto_msg_data of the outbound side, and the identifiers drawn. */
  datatype Outbound = Outbound(list: seq<Message>, queueLen: int, quota: nat, maximum: nat, lastMid: uint16, drawn: nat)

  datatype Inbound = Inbound(list: seq<Message>, queueLen: int, quota: nat, maximum: nat, stored: nat)

  datatype ClientState = New | Connected | Disconnecting | Active | Disconnected

  datatype State = State(
    out: Outbound, inn: Inbound, state: ClientState, protocol: Protocol,
    wire: seq<Sent>, notes: seq<Note>)

  datatype Step = Step(s: State, rc: int)

  const INITIAL_MAXIMUM: nat := 20

  /** mosquitto_reinitialise; the maximums may then be set by option. */
  function Start(protocol: Protocol, outMax: nat, inMax: nat): State {
    State(Outbound([], 0, INITIAL_MAXIMUM, outMax, 0, 0), Inbound([], 0, INITIAL_MAXIMUM, inMax, 0),
          New, protocol, [], [])
  }

  // ---------- packet identifiers ----------

  /** mosquitto__mid_generate: a 16-bit increment that skips 0. */
  function NextMid(last: uint16): (mid: uint16)
    ensures mid != 0
  {
    var next := (last + 1) % 0x1_0000;
    if next == 0 then 1 else next
  }

  function DrawMid(o: Outbound): Outbound { o.(lastMid := NextMid(o.lastMid), drawn := o.drawn + 1) }

  // ---------- quotas ----------

  function Increment(quota: nat, maximum: nat): nat { if quota < maximum then quota + 1 else quota }

  function Decrement(quota: nat): nat { if quota > 0 then quota - 1 else quota }

  // ---------- the outbound list ----------

  /** The state of a message that is handed out for the first time. */
  function Release(m: Message): Message {
    m.(state := if m.qos == 1 then WaitForPuback else if m.qos == 2 then WaitForPubrec else m.state)
  }

  datatype Walk = Walk(list: seq<Message>, quota: nat, wire: seq<Sent>, rc: int)

  /** message__release_to_inflight: walk down the list while there is quota, and
      send every message not sent yet; stop at the first send that fails. */
  function ReleaseToInflight(l: seq<Message>, quota: nat, wire: seq<Sent>, net: Net): Walk {
    if l == [] || quota == 0 then Walk(l, quota, wire, SUCCESS)
    else if l[0].qos > 0 && l[0].state == Invalid then
      var m := Release(l[0]);
      var rc := net(|wire|);
      var wire' := wire + [SentPublish(m, rc)];
      if rc != SUCCESS then Walk([m] + l[1..], quota, wire', rc)
      else
        var w := ReleaseToInflight(l[1..], Decrement(quota), wire', net);
        w.(list := [m] + w.list)
    else
      var w := ReleaseToInflight(l[1..], quota, wire, net);
      w.(list := [l[0]] + w.list)
  }

  function ReleaseMore(s: State, net: Net): Step {
    var w := ReleaseToInflight(s.out.list, s.out.quota, s.wire, net);
    Step(s.(out := s.out.(list := w.list, quota := w.quota), wire := w.wire), w.rc)
  }

  /** The first entry with a packet identifier. */
  function IndexOf(l: seq<Message>, mid: uint16): (k: Option<nat>)
    ensures k.Some? ==> k.value < |l| && l[k.value].mid == mid && forall i | 0 <= i < k.value :: l[i].mid != mid
    ensures k.None? ==> forall m | m in l :: m.mid != mid
  {
    if l == [] then None
    else if l[0].mid == mid then Some(0)
    else
      match IndexOf(l[1..], mid)
      case None => None
      case Some(i) => Some(i + 1)
  }

  function Without(l: seq<Message>, k: nat): (r: seq<Message>)
    requires k < |l|
    ensures |r| == |l| - 1
  {
    l[..k] + l[k + 1..]
  }

  lemma SplitAt(l: seq<Message>, k: nat)
    requires k < |l|
    ensures l == l[..k] + ([l[k]] + l[k + 1..])
  {
  }

  /** What a search for an identifier of a given QoS comes to. */
  datatype Search = Found(k: nat) | WrongQos | Missing

  function Find(l: seq<Message>, mid: uint16, qos: nat): (r: Search)
    ensures r.Found? ==> r.k < |l| && l[r.k].mid == mid && l[r.k].qos == qos
  {
    match IndexOf(l, mid)
    case None => Missing
    case Some(k) => if l[k].qos != qos then WrongQos else Found(k)
  }

  /** message__reconnect_reset on one outbound message. */
  function ResetState(m: Message): Message {
    m.(state :=
         if m.qos == 1 then PublishQos1
         else if m.qos == 2 && m.state == WaitForPubrec then PublishQos2
         else if m.qos == 2 && m.state == WaitForPubcomp then ResendPubrel
         else m.state)
  }

  datatype ResetWalk = ResetWalk(list: seq<Message>, quota: nat)

  function ResetOut(l: seq<Message>, quota: nat): ResetWalk {
    if l == [] then ResetWalk([], quota)
    else
      var m := if quota != 0 then ResetState(l[0]) else l[0].(state := Invalid);
      var w := ResetOut(l[1..], if quota != 0 then Decrement(quota) else quota);
      w.(list := [m] + w.list)
  }

  /** The inbound half: only QoS 2 entries survive, each charged to the quota. */
  function ResetIn(l: seq<Message>, quota: nat): ResetWalk {
    if l == [] then ResetWalk([], quota)
    else if l[0].qos != 2 then ResetIn(l[1..], quota)
    else
      var w := ResetIn(l[1..], Decrement(quota));
      w.(list := [l[0]] + w.list)
  }

  datatype RetryWalk = RetryWalk(list: seq<Message>, wire: seq<Sent>)

  /** What message__retry_check makes of one message, and what it sends for it. */
  function RetryMessage(m: Message): Message {
    if m.state in {PublishQos1, PublishQos2, WaitForPubrel, ResendPubrel, WaitForPubcomp} then m.(dup := true) else m
  }

  function RetrySends(m: Message, rc: int): seq<Sent> {
    match m.state
    case PublishQos1 | PublishQos2 => [SentPublish(m.(dup := true), rc)]
    case WaitForPubrel => [SentAck(CMD_PUBREC, m.mid, rc)]
    case ResendPubrel | WaitForPubcomp => [SentAck(CMD_PUBREL + 2, m.mid, rc)]
    case _ => []
  }

  /** message__retry_check: what is resent after a reconnection. Results of the
      sends are ignored. */
  function Retry(l: seq<Message>, wire: seq<Sent>, net: Net): RetryWalk {
    if l == [] then RetryWalk([], wire)
    else
      var w := Retry(l[1..], wire + RetrySends(l[0], net(|wire|)), net);
      RetryWalk([RetryMessage(l[0])] + w.list, w.wire)
  }

  // ---------- events ----------

  /** What an acknowledgement packet reads as. */
  datatype Ack = BadAck(rc: int) | Ack(mid: uint16, reason: byte)

  /** What an inbound PUBLISH reads as: at fault up to its topic, at fault
      behind it, or complete. */
  datatype Publish =
    | BadTopic(rc: int)
    | BadRest(qos: nat, rc: int)
    | Publish(qos: nat, mid: uint16, dup: bool, content: Content)

  /** mosquitto_publish_v5, once admitted: QoS 0 is sent at once, QoS 1 and 2 are
      queued. */
  function PublishOut(s: State, qos: nat, content: Content, net: Net): Step {
    var o := DrawMid(s.out);
    var m := Message(o.drawn, o.lastMid, qos, Invalid, false, content);
    if qos == 0 then
      var rc := net(|s.wire|);
      Step(s.(out := o, wire := s.wire + [SentPublish(m, rc)]), rc)
    else
      ReleaseMore(s.(out := o.(list := o.list + [m], queueLen := o.queueLen + 1), notes := s.notes + [Appended(m.serial)]), net)
  }

  /** A subscribe or an unsubscribe takes an identifier too. */
  function TakeMid(s: State): State { s.(out := DrawMid(s.out)) }

  function Ending(m: Message, refused: bool): Note { if refused then Refused(m.serial, m.mid) else Completed(m.serial, m.mid) }

  /** A message leaves the list and is reported. */
  function Complete(s: State, k: nat, refused: bool): State
    requires k < |s.out.list|
  {
    s.(out := s.out.(list := Without(s.out.list, k), queueLen := s.out.queueLen - 1),
       notes := s.notes + [Ending(s.out.list[k], refused)])
  }

  function CreditOut(s: State): State { s.(out := s.out.(quota := Increment(s.out.quota, s.out.maximum))) }

  /** handle__pubackcomp: the quota is credited before the packet is read. */
  function PubAckComp(s: State, qos: nat, ack: Ack, net: Net): Step {
    if s.state != Active then Step(s, ERR_PROTOCOL)
    else
      var s' := CreditOut(s);
      match ack
      case BadAck(rc) => Step(s', rc)
      case Ack(mid, reason) =>
        match Find(s'.out.list, mid, qos)
        case WrongQos => Step(s', ERR_PROTOCOL)
        case Found(k) => Step(ReleaseMore(Complete(s', k, false), net).s, SUCCESS)
        case Missing => Step(ReleaseMore(s', net).s, SUCCESS)
  }

  function SendAck(s: State, command: byte, mid: uint16, net: Net): Step {
    var rc := net(|s.wire|);
    Step(s.(wire := s.wire + [SentAck(command, mid, rc)]), rc)
  }

  /** handle__pubrec. */
  function PubRec(s: State, ack: Ack, net: Net): Step {
    if s.state != Active then Step(s, ERR_PROTOCOL)
    else
      match ack
      case BadAck(rc) => Step(s, rc)
      case Ack(mid, reason) =>
        if reason < 0x80 || s.protocol != V5 then
          match Find(s.out.list, mid, 2)
          case WrongQos => Step(s, ERR_PROTOCOL)
          case Missing => SendAck(s, CMD_PUBREL + 2, mid, net)
          case Found(k) =>
            var m := s.out.list[k].(state := WaitForPubcomp);
            SendAck(s.(out := s.out.(list := s.out.list[k := m])), CMD_PUBREL + 2, mid, net)
        else
          match Find(s.out.list, mid, 2)
          case Found(k) => Step(ReleaseMore(CreditOut(Complete(s, k, true)), net).s, SUCCESS)
          case _ => Step(ReleaseMore(CreditOut(s), net).s, SUCCESS)
  }

  function ChargeIn(s: State): State { s.(inn := s.inn.(quota := Decrement(s.inn.quota))) }

  function CreditIn(s: State): State { s.(inn := s.inn.(quota := Increment(s.inn.quota, s.inn.maximum))) }

  /** Version 5 refuses a QoS 1 or 2 message when the receive quota is used up. */
  predicate Exhausted(s: State, qos: nat) { qos > 0 && s.protocol == V5 && s.inn.quota == 0 }

  /** handle__publish, after the packet has been read. */
  function PublishIn(s: State, p: Publish, net: Net): Step {
    if s.state != Active then Step(s, ERR_PROTOCOL)
    else
      match p
      case BadTopic(rc) => Step(s, rc)
      case BadRest(qos, rc) => Step(s, if Exhausted(s, qos) then ERR_PROTOCOL else rc)
      case Publish(qos, mid, dup, content) =>
        if Exhausted(s, qos) then Step(s, ERR_PROTOCOL)
        else if qos == 0 then Step(s.(notes := s.notes + [DeliveredAtOnce(0, content)]), SUCCESS)
        else if qos == 1 then
          var a := SendAck(CreditIn(ChargeIn(s)), CMD_PUBACK, mid, net);
          a.(s := a.s.(notes := s.notes + [DeliveredAtOnce(1, content)]))
        else if qos == 2 then
          var a := SendAck(ChargeIn(s), CMD_PUBREC, mid, net);
          var i := a.s.inn;
          var m := Message(i.stored + 1, mid, 2, WaitForPubrel, dup, content);
          a.(s := a.s.(inn := i.(list := i.list + [m], queueLen := i.queueLen + 1, stored := i.stored + 1),
                       notes := s.notes + [Stored(m.serial)]))
        else Step(s, ERR_PROTOCOL)
  }

  function TakeOut(s: State, k: nat, note: Note): State
    requires k < |s.inn.list|
  {
    s.(inn := s.inn.(list := Without(s.inn.list, k), queueLen := s.inn.queueLen - 1), notes := s.notes + [note])
  }

  /** handle__pubrel: the message is delivered when it leaves the list, unless
      PUBCOMP could not be sent. */
  function PubRel(s: State, flags: byte, ack: Ack, net: Net): Step {
    if s.state != Active then Step(s, ERR_PROTOCOL)
    else if s.protocol != V31 && flags != 2 then Step(s, ERR_PROTOCOL)
    else
      match ack
      case BadAck(rc) => Step(s, rc)
      case Ack(mid, reason) =>
        var a := SendAck(CreditIn(s), CMD_PUBCOMP, mid, net);
        match Find(a.s.inn.list, mid, 2)
        case Found(k) =>
          var m := a.s.inn.list[k];
          if a.rc != SUCCESS then Step(TakeOut(a.s, k, Dropped(m.serial)), a.rc)
          else Step(TakeOut(a.s, k, Delivered(m)), SUCCESS)
        case Missing => a
        case WrongQos => if a.rc != SUCCESS then a else Step(a.s, ERR_PROTOCOL)
  }

  /** message__reconnect_reset. */
  function ReconnectReset(s: State): State {
    var i := ResetIn(s.inn.list, s.inn.maximum);
    var o := ResetOut(s.out.list, s.out.maximum);
    s.(inn := s.inn.(list := i.list, queueLen := |s.inn.list|, quota := i.quota),
       out := s.out.(list := o.list, queueLen := |s.out.list|, quota := o.quota))
  }

  /** mosquitto__connect_init. */
  function ConnectInit(s: State): State {
    s.(inn := s.inn.(quota := s.inn.maximum), out := s.out.(quota := s.out.maximum))
  }

  /** send__connect with a Receive Maximum property of the application. */
  function SetReceiveMaximum(s: State, maximum: uint16): State {
    s.(inn := s.inn.(maximum := maximum, quota := maximum))
  }

  /** handle__connack, once read: the broker's Receive Maximum, if any, replaces
      the send maximum, and the send quota starts afresh. */
  function Connack(s: State, reason: byte, receiveMaximum: Option<uint16>, net: Net): Step {
    var maximum := if receiveMaximum.Some? then receiveMaximum.value else s.out.maximum;
    var s' := s.(out := s.out.(maximum := maximum, quota := maximum));
    if reason == 0 then
      var w := Retry(s'.out.list, s'.wire, net);
      Step(s'.(state := if s.state == Disconnecting then s.state else Active,
               out := s'.out.(list := w.list), wire := w.wire), SUCCESS)
    else Step(s', if reason <= 5 then ERR_CONN_REFUSED else ERR_PROTOCOL)
  }

  datatype Event =
    | DoPublish(outQos: nat, outContent: Content)
    | DoTakeMid
    | DoConnectInit
    | DoReset
    | DoSetReceiveMaximum(receiveMaximum: uint16)
    | DoSetState(state: ClientState)
    | OnConnack(connackReason: byte, sendMaximum: Option<uint16>)
    | OnPuback(puback: Ack)
    | OnPubcomp(pubcomp: Ack)
    | OnPubrec(pubrec: Ack)
    | OnPublish(publish: Publish)
    | OnPubrel(flags: byte, pubrel: Ack)

  /** What the interface and the packet reader let through: a QoS of at most 2,
      and a Receive Maximum of 0 is a protocol error. */
  predicate Possible(e: Event) {
    match e
    case DoPublish(qos, _) => qos <= 2
    case DoSetReceiveMaximum(m) => m > 0
    case OnConnack(_, max) => max != Some(0)
    case _ => true
  }

  function Next(s: State, e: Event, net: Net): State {
    match e
    case DoPublish(qos, content) => PublishOut(s, qos, content, net).s
    case DoTakeMid => TakeMid(s)
    case DoConnectInit => ConnectInit(s)
    case DoReset => ReconnectReset(s)
    case DoSetReceiveMaximum(m) => SetReceiveMaximum(s, m)
    case DoSetState(st) => s.(state := st)
    case OnConnack(reason, max) => Connack(s, reason, max, net).s
    case OnPuback(a) => PubAckComp(s, 1, a, net).s
    case OnPubcomp(a) => PubAckComp(s, 2, a, net).s
    case OnPubrec(a) => PubRec(s, a, net).s
    case OnPublish(p) => PublishIn(s, p, net).s
    case OnPubrel(flags, a) => PubRel(s, flags, a, net).s
  }

  /** A whole run. */
  function Run(s: State, es: seq<Event>, net: Net): State
    decreases |es|
  {
    if es == [] then s else Run(Next(s, es[0], net), es[1..], net)
  }
  /** One event more. */
  lemma {:induction false} RunMore(s: State, es: seq<Event>, e: Event, net: Net)
    ensures Run(s, es + [e], net) == Next(Run(s, es, net), e, net)
    decreases |es|
  {
    hide Next;
    if es == [] {
      assert [e][1..] == [] && [] + [e] == [e];
    } else {
      assert (es + [e])[1..] == es[1..] + [e];
      RunMore(Next(s, es[0], net), es[1..], e, net);
    }
  }
}
