/**
 * What the handlers and the publish call return, told from the state and the event:
 * which acknowledgements and packets are refused, and when the result is that of a
 * send.
 */
module Results {
  import opened Mqtt
  import opened Inflight
  import opened Delivery

  /** The first entry with an identifier. */
  predicate FirstWith(l: seq<Message>, mid: uint16, k: nat) {
    k < |l| && l[k].mid == mid && forall i | 0 <= i < k :: l[i].mid != mid
  }

  predicate Unknown(l: seq<Message>, mid: uint16) { forall i | 0 <= i < |l| :: l[i].mid != mid }

  /** An entry with this identifier, and another QoS, comes first. */
  ghost predicate Mistaken(l: seq<Message>, mid: uint16, qos: nat) { exists k: nat :: FirstWith(l, mid, k) && l[k].qos != qos }

  lemma FindExact(l: seq<Message>, mid: uint16, qos: nat)
    ensures Find(l, mid, qos).Missing? <==> Unknown(l, mid)
    ensures Find(l, mid, qos).WrongQos? <==> Mistaken(l, mid, qos)
    ensures forall k: nat :: Find(l, mid, qos) == Found(k) <==> FirstWith(l, mid, k) && l[k].qos == qos
  {
    hide IndexOf;
    var j := IndexOf(l, mid);
    if j.Some? {
      assert FirstWith(l, mid, j.value);
      forall k: nat | FirstWith(l, mid, k) ensures k == j.value {}
    } else {
      forall i | 0 <= i < |l| ensures l[i].mid != mid { assert l[i] in l; }
    }
  }

  /** A packet that cannot be read fails with some error. */
  predicate Fails(ack: Ack) { ack.BadAck? ==> ack.rc != SUCCESS }

  /** PUBACK and PUBCOMP succeed exactly on a connected client, if they can be read
      and name no message of another QoS; what is refused changes at most the
      quota. */
  lemma AckResult(s: State, qos: nat, ack: Ack, net: Net)
    requires Fails(ack)
    ensures var r := PubAckComp(s, qos, ack, net);
            && (r.rc == SUCCESS <==> s.state == Active && ack.Ack? && !Mistaken(s.out.list, ack.mid, qos))
            && (s.state != Active ==> r == Step(s, ERR_PROTOCOL))
            && (s.state == Active && ack.BadAck? ==> r.rc == ack.rc)
            && (s.state == Active && ack.Ack? && r.rc != SUCCESS ==> r.rc == ERR_PROTOCOL)
            && (r.rc != SUCCESS ==> r.s.out.list == s.out.list && r.s.wire == s.wire && r.s.notes == s.notes && r.s.inn == s.inn)
  {
    if ack.Ack? { FindExact(s.out.list, ack.mid, qos); }
    hide ReleaseMore, Find;
  }

  /** PUBREC: one that refuses succeeds whatever it names; otherwise the result is
      that of sending PUBREL, unless it names a message of another QoS. */
  lemma PubRecResult(s: State, ack: Ack, net: Net)
    ensures var r := PubRec(s, ack, net);
            && (s.state != Active ==> r == Step(s, ERR_PROTOCOL))
            && (s.state == Active && ack.BadAck? ==> r == Step(s, ack.rc))
            && (s.state == Active && ack.Ack? ==>
                  if s.protocol == V5 && ack.reason >= 128 then r.rc == SUCCESS
                  else if Mistaken(s.out.list, ack.mid, 2) then r == Step(s, ERR_PROTOCOL)
                  else
                    && r.s.wire == s.wire + [SentAck(0x62, ack.mid, net(|s.wire|))] && r.rc == net(|s.wire|)
                    && r.s.out.quota == s.out.quota && r.s.notes == s.notes && |r.s.out.list| == |s.out.list|
                    && forall k | 0 <= k < |s.out.list| ::
                         r.s.out.list[k] == if FirstWith(s.out.list, ack.mid, k) then s.out.list[k].(state := WaitForPubcomp) else s.out.list[k])
  {
    if ack.Ack? { FindExact(s.out.list, ack.mid, 2); }
    hide ReleaseMore, Find;
  }

  /** PUBLISH: what is not accepted changes nothing. A message of QoS 1 or 2 finds
      the receive quota used up before the rest of its packet is looked at. */
  lemma PublishResult(s: State, p: Publish, net: Net)
    ensures var r := PublishIn(s, p, net);
            && (s.state != Active ==> r == Step(s, ERR_PROTOCOL))
            && (s.state == Active ==>
                  match p
                  case BadTopic(rc) => r == Step(s, rc)
                  case BadRest(qos, rc) => r == Step(s, if qos > 0 && s.protocol == V5 && s.inn.quota == 0 then ERR_PROTOCOL else rc)
                  case Publish(qos, mid, _, _) =>
                    if (qos > 0 && s.protocol == V5 && s.inn.quota == 0) || qos > 2 then r == Step(s, ERR_PROTOCOL)
                    else if qos == 0 then r.rc == SUCCESS && r.s.wire == s.wire
                    else r.rc == net(|s.wire|) && r.s.wire == s.wire + [SentAck(if qos == 1 then 0x40 else 0x50, mid, r.rc)])
  {
  }

  /** PUBREL: the flags in its first byte have to be 2 from version 3.1.1 on; the
      result is that of sending PUBCOMP, if there is no message of another QoS. */
  lemma PubRelResult(s: State, flags: byte, ack: Ack, net: Net)
    ensures var r := PubRel(s, flags, ack, net);
            && (s.state != Active || (s.protocol != V31 && flags != 2) ==> r == Step(s, ERR_PROTOCOL))
            && (s.state == Active && (s.protocol == V31 || flags == 2) ==>
                  match ack
                  case BadAck(rc) => r == Step(s, rc)
                  case Ack(mid, _) =>
                    && r.s.wire == s.wire + [SentAck(0x70, mid, net(|s.wire|))]
                    && r.rc == if net(|s.wire|) == SUCCESS && Mistaken(s.inn.list, mid, 2) then ERR_PROTOCOL else net(|s.wire|))
  {
    if ack.Ack? { FindExact(s.inn.list, ack.mid, 2); }
    hide Find;
  }

  /** A walk fails exactly if its last send does, with that result. */
  lemma {:induction false} WalkResult(l: seq<Message>, quota: nat, wire: seq<Sent>, net: Net)
    ensures var w := ReleaseToInflight(l, quota, wire, net);
            && wire <= w.wire
            && (forall i | |wire| <= i < |w.wire| - 1 :: net(i) == SUCCESS)
            && w.rc == if |w.wire| > |wire| then net(|w.wire| - 1) else SUCCESS
  {
    if l != [] && quota > 0 {
      if l[0].qos > 0 && l[0].state == Invalid {
        WalkResult(l[1..], Decrement(quota), wire + [SentPublish(Release(l[0]), net(|wire|))], net);
      } else {
        WalkResult(l[1..], quota, wire, net);
      }
    }
  }

  /** So a publish call returns the result of its last send, and success if there is
      nothing to send yet. */
  lemma PublishOutResult(s: State, qos: nat, content: Content, net: Net)
    ensures var r := PublishOut(s, qos, content, net);
            && s.wire <= r.s.wire
            && (forall i | |s.wire| <= i < |r.s.wire| - 1 :: net(i) == SUCCESS)
            && r.rc == (if |r.s.wire| > |s.wire| then net(|r.s.wire| - 1) else SUCCESS)
            && (qos == 0 ==> |r.s.wire| == |s.wire| + 1)
  {
    if qos > 0 {
      var o := DrawMid(s.out);
      WalkResult(o.list + [Message(o.drawn, o.lastMid, qos, Invalid, false, content)], o.quota, s.wire, net);
    }
    hide ReleaseToInflight;
  }

  /** CONNACK: accepted with reason 0 only. */
  lemma ConnackResult(s: State, reason: byte, max: Option<uint16>, net: Net)
    ensures var r := Connack(s, reason, max, net);
            && (r.rc == SUCCESS <==> reason == 0)
            && (r.rc == 5 <==> 1 <= reason <= 5)
            && (reason > 5 ==> r.rc == ERR_PROTOCOL)
            && (reason == 0 ==> r.s.state == if s.state == Disconnecting then Disconnecting else Active)
            && (reason != 0 ==> r.s.state == s.state && r.s.wire == s.wire && r.s.out.list == s.out.list)
            && r.s.inn == s.inn && r.s.notes == s.notes
            && r.s.out.maximum == r.s.out.quota == (if max.Some? then max.value else s.out.maximum)
  {
    hide Retry;
  }

  /** Who is active has been accepted. */
  lemma {:induction false} ActiveMeansAccepted(s: State, es: seq<Event>, net: Net)
    requires s.state != Active && Run(s, es, net).state == Active
    ensures exists e :: e in es && ((e.OnConnack? && e.connackReason == 0) || e == DoSetState(Active))
    decreases |es|
  {
    assert es != [];
    var t := Next(s, es[0], net);
    if t.state != Active {
      ActiveMeansAccepted(t, es[1..], net);
      var e :| e in es[1..] && ((e.OnConnack? && e.connackReason == 0) || e == DoSetState(Active));
      assert e in es;
    } else {
      StateKept(s, es[0], net);
      assert es[0] in es;
    }
  }

  /** So a client that starts, and is not made active by a caller, has received a
      CONNACK with reason 0 when it is active. */
  lemma AcceptedFirst(protocol: Protocol, outMax: nat, inMax: nat, es: seq<Event>, net: Net)
    requires DoSetState(Active) !in es && Run(Start(protocol, outMax, inMax), es, net).state == Active
    ensures exists max :: OnConnack(0, max) in es
  {
    hide Run;
    ActiveMeansAccepted(Start(protocol, outMax, inMax), es, net);
    var e :| e in es && ((e.OnConnack? && e.connackReason == 0) || e == DoSetState(Active));
    assert e == OnConnack(0, e.sendMaximum);
  }

  /** Only these two events make a client active. */
  lemma StateKept(s: State, e: Event, net: Net)
    ensures s.state != Active && Next(s, e, net).state == Active ==>
              (e.OnConnack? && e.connackReason == 0) || e == DoSetState(Active)
  {
    hide ReleaseToInflight, Retry, ResetOut, ResetIn, Find, Without;
  }
}
