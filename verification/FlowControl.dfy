/**
 * Flow control within one connection (section 4.9 of MQTT Version 5.0): an
 * exact account of the send quota, and the bound on unacknowledged messages
 * that follows from it.
 */
module FlowControl {
  import opened Mqtt
  import opened Inflight
  import opened Delivery
  import opened SendWindow
  import opened Inputs

  /** Quota left plus messages out. */
  function Credit(s: State): nat { s.out.quota + Count(s.out.list) }

  /** QoS 0 is not subject to the quota. */
  function FailedPublishes(w: seq<Sent>): nat {
    if w == [] then 0
    else (if w[0].SentPublish? && w[0].msg.qos > 0 && w[0].rc != SUCCESS then 1 else 0) + FailedPublishes(w[1..])
  }

  /** Which acknowledgement of which QoS an event is, if it credits the quota. */
  datatype Credited = Nothing | Unread | Acked(mid: uint16, qos: nat)

  function CreditedBy(s: State, e: Event): Credited {
    if s.state != Active then Nothing
    else
      match e
      case OnPuback(BadAck(_)) => Unread
      case OnPuback(Ack(mid, _)) => Acked(mid, 1)
      case OnPubcomp(BadAck(_)) => Unread
      case OnPubcomp(Ack(mid, _)) => Acked(mid, 2)
      case OnPubrec(Ack(mid, reason)) => if reason < 0x80 || s.protocol != V5 then Nothing else Acked(mid, 2)
      case _ => Nothing
  }

  /** One unit comes back with such an acknowledgement, up to the maximum. */
  function Earned(s: State, e: Event): nat {
    if CreditedBy(s, e) != Nothing && s.out.quota < s.out.maximum then 1 else 0
  }

  /** One message that was out leaves the list with it, if it names one. */
  function Retired(s: State, e: Event): nat {
    match CreditedBy(s, e)
    case Acked(mid, qos) =>
      var found := Find(s.out.list, mid, qos);
      if found.Found? && Released(s.out.list[found.k]) then 1 else 0
    case _ => 0
  }

  /** One message counts as out through a PUBREC that came before it was sent. */
  function Promoted(s: State, e: Event): nat {
    if e.OnPubrec? && e.pubrec.Ack? && s.state == Active && CreditedBy(s, e) == Nothing then
      var found := Find(s.out.list, e.pubrec.mid, 2);
      if found.Found? && !Released(s.out.list[found.k]) then 1 else 0
    else 0
  }

  predicate WithinConnection(e: Event) { !e.DoConnectInit? && !e.DoReset? && !e.OnConnack? }

  /** The sends made between two states, each with the result the network gave. */
  ghost predicate Sends(w: seq<Sent>, w': seq<Sent>, net: Net) {
    w <= w' && forall i | |w| <= i < |w'| :: w'[i].rc == net(i)
  }

  lemma {:induction false} ReleaseSends(l: seq<Message>, quota: nat, wire: seq<Sent>, net: Net)
    ensures var w := ReleaseToInflight(l, quota, wire, net);
            && Sends(wire, w.wire, net)
            && FailedPublishes(w.wire[|wire|..]) == (if w.rc == SUCCESS then 0 else 1)
  {
    if l != [] && quota > 0 {
      if l[0].qos > 0 && l[0].state == Invalid {
        var sent := SentPublish(Release(l[0]), net(|wire|));
        var wire' := wire + [sent];
        ReleaseSends(l[1..], quota - 1, wire', net);
        var w := ReleaseToInflight(l, quota, wire, net);
        assert w.wire[|wire|] == sent by { assert wire'[|wire|] == sent; }
        assert w.wire[|wire|..] == [sent] + w.wire[|wire'|..];
      } else {
        ReleaseSends(l[1..], quota, wire, net);
      }
    }
  }

  /** What a walk does to the credit. */
  lemma ReleaseMoreCredit(s: State, net: Net)
    requires Plain(s.out.list)
    ensures var t := ReleaseMore(s, net).s;
            && Sends(s.wire, t.wire, net) && t.out.maximum == s.out.maximum && t.out.quota <= s.out.quota
            && Plain(t.out.list)
            && Credit(t) == Credit(s) + FailedPublishes(t.wire[|s.wire|..])
  {
    ReleaseWindow(s.out.list, s.out.quota, s.wire, net);
    ReleasePlain(s.out.list, s.out.quota, s.wire, net);
    ReleaseSends(s.out.list, s.out.quota, s.wire, net);
  }

  lemma OneAck(w: seq<Sent>, command: byte, mid: uint16, rc: int)
    ensures var w' := w + [SentAck(command, mid, rc)]; FailedPublishes(w'[|w|..]) == 0
  {
  }

  ghost predicate Accounted(s: State, e: Event, net: Net, t: State) {
    && Sends(s.wire, t.wire, net)
    && t.out.maximum == s.out.maximum
    && Plain(t.out.list)
    && (s.out.quota <= s.out.maximum ==> t.out.quota <= t.out.maximum)
    && Credit(t) + Retired(s, e) == Credit(s) + Earned(s, e) + Promoted(s, e) + FailedPublishes(t.wire[|s.wire|..])
  }

  lemma PublishAccounted(s: State, qos: nat, content: Content, net: Net)
    requires Plain(s.out.list) && qos <= 2
    ensures Accounted(s, DoPublish(qos, content), net, PublishOut(s, qos, content, net).s)
  {
    var o := DrawMid(s.out);
    var m := Message(o.drawn, o.lastMid, qos, Invalid, false, content);
    if qos == 0 {
      var sent := SentPublish(m, net(|s.wire|));
      assert (s.wire + [sent])[|s.wire|..] == [sent] && [sent][1..] == [];
      return;
    }
    AppendWindow(o.list, m);
    ReleaseMoreCredit(s.(out := o.(list := o.list + [m], queueLen := o.queueLen + 1), notes := s.notes + [Appended(m.serial)]), net);
  }

  lemma NoSends(w: seq<Sent>)
    ensures w[|w|..] == []
  {
  }

  /** Taking a message out of the list and walking on. */
  lemma CompleteCredit(s: State, k: nat, refused: bool, net: Net)
    requires Plain(s.out.list) && k < |s.out.list|
    ensures var t := ReleaseMore(Complete(s, k, refused), net).s;
            && Sends(s.wire, t.wire, net) && t.out.maximum == s.out.maximum && t.out.quota <= s.out.quota
            && Plain(t.out.list)
            && Credit(t) + (if Released(s.out.list[k]) then 1 else 0) == Credit(s) + FailedPublishes(t.wire[|s.wire|..])
  {
    WithoutWindow(s.out.list, k);
    ReleaseMoreCredit(Complete(s, k, refused), net);
  }

  lemma AckAccounted(s: State, e: Event, net: Net)
    requires Plain(s.out.list) && (e.OnPuback? || e.OnPubcomp?)
    ensures Accounted(s, e, net, Next(s, e, net))
  {
    hide Sends, Count, FailedPublishes, ReleaseMore, Complete;
    NoSends(s.wire);
    SendsNothing(s.wire, net);
    if s.state == Active {
      var s' := CreditOut(s);
      var ack, qos := if e.OnPuback? then e.puback else e.pubcomp, if e.OnPuback? then 1 else 2;
      if ack.Ack? {
        match Find(s.out.list, ack.mid, qos)
        case WrongQos =>
        case Missing => ReleaseMoreCredit(s', net);
        case Found(k) => CompleteCredit(s', k, false, net);
      }
    }
  }

  lemma SendsNothing(w: seq<Sent>, net: Net)
    ensures Sends(w, w, net) && FailedPublishes([]) == 0
  {
  }

  lemma RefusalAccounted(s: State, ack: Ack, net: Net)
    requires Plain(s.out.list) && s.state == Active && ack.Ack? && !(ack.reason < 0x80 || s.protocol != V5)
    ensures Accounted(s, OnPubrec(ack), net, PubRec(s, ack, net).s)
  {
    hide Sends, Count, FailedPublishes, ReleaseMore;
    match Find(s.out.list, ack.mid, 2)
    case Found(k) => CompleteCredit(CreditOut(s), k, true, net);
    case _ => ReleaseMoreCredit(CreditOut(s), net);
  }

  lemma PubRecAccounted(s: State, ack: Ack, net: Net)
    requires Plain(s.out.list)
    ensures Accounted(s, OnPubrec(ack), net, PubRec(s, ack, net).s)
  {
    NoSends(s.wire);
    SendsNothing(s.wire, net);
    if s.state == Active && ack.Ack? {
      if ack.reason < 0x80 || s.protocol != V5 {
        OneAck(s.wire, CMD_PUBREL + 2, ack.mid, net(|s.wire|));
        match Find(s.out.list, ack.mid, 2)
        case Found(k) => ReplaceCount(s.out.list, k, s.out.list[k].(state := WaitForPubcomp));
        case _ =>
      } else {
        RefusalAccounted(s, ack, net);
      }
    }
  }

  lemma PublishInAccounted(s: State, p: Publish, net: Net)
    requires Plain(s.out.list)
    ensures Accounted(s, OnPublish(p), net, Next(s, OnPublish(p), net))
  {
    NoSends(s.wire);
    SendsNothing(s.wire, net);
    match p
    case Publish(qos, mid, _, _) => OneAck(s.wire, if qos == 1 then CMD_PUBACK else CMD_PUBREC, mid, net(|s.wire|));
    case _ =>
  }

  lemma PubRelAccounted(s: State, flags: byte, a: Ack, net: Net)
    requires Plain(s.out.list)
    ensures Accounted(s, OnPubrel(flags, a), net, Next(s, OnPubrel(flags, a), net))
  {
    NoSends(s.wire);
    SendsNothing(s.wire, net);
    match a
    case Ack(mid, _) => OneAck(s.wire, CMD_PUBCOMP, mid, net(|s.wire|));
    case _ =>
  }

  /** The exact account. Whatever arrives and whichever sends fail, quota plus
      messages out changes by: one up for an acknowledgement that credits the
      quota, one down for the message that it retires, one up for a PUBREC that
      came too early, and one up for a PUBLISH that could not be sent. */
  lemma CreditLaw(s: State, e: Event, net: Net)
    requires Plain(s.out.list) && Possible(e) && WithinConnection(e)
    ensures Accounted(s, e, net, Next(s, e, net))
  {
    match e
    case DoPublish(qos, content) => PublishAccounted(s, qos, content, net);
    case OnPuback(_) => AckAccounted(s, e, net);
    case OnPubcomp(_) => AckAccounted(s, e, net);
    case OnPubrec(a) => PubRecAccounted(s, a, net);
    case OnPublish(p) => PublishInAccounted(s, p, net);
    case OnPubrel(flags, a) => PubRelAccounted(s, flags, a, net);
    case DoTakeMid => NoSends(s.wire);
    case DoSetReceiveMaximum(_) => NoSends(s.wire);
    case DoSetState(_) => NoSends(s.wire);
  }

  // ---------- the bound ----------

  /** A broker that keeps to the protocol: its acknowledgements can be read and
      name messages that are out. */
  predicate Proper(s: State, e: Event) {
    && WithinConnection(e) && Possible(e)
    && (CreditedBy(s, e) != Nothing ==> Retired(s, e) == 1)
    && Promoted(s, e) == 0
  }

  ghost predicate AllSent(net: Net) { forall n: nat :: net(n) == SUCCESS }

  lemma {:induction false} NoFailures(w: seq<Sent>)
    requires forall i | 0 <= i < |w| :: w[i].rc == SUCCESS
    ensures FailedPublishes(w) == 0
  {
    if w != [] {
      assert forall i | 0 <= i < |w[1..]| :: w[1..][i] == w[i + 1];
      NoFailures(w[1..]);
    }
  }

  /** When an event leaves no more credit than there was, if its sends succeed: one
      unit is earned only with a message that is retired. */
  lemma CreditExact(s: State, e: Event, net: Net)
    requires Plain(s.out.list) && Possible(e) && WithinConnection(e) && AllSent(net)
    ensures Credit(Next(s, e, net)) <= Credit(s) <==> Earned(s, e) + Promoted(s, e) <= Retired(s, e)
  {
    CreditLaw(s, e, net);
    NoFailures(Next(s, e, net).wire[|s.wire|..]);
    hide Next, Earned, Promoted, Retired;
  }

  /** Otherwise more messages go out than the maximum allows: a PUBACK for an
      unknown identifier, when the window is full, lets another message out. */
  lemma UnknownAckOverCredits(content: Content, net: Net)
    requires AllSent(net)
    ensures var s := Run(Start(V5, 1, 20), Filling(content), net);
            var t := Run(Start(V5, 1, 20), Filling(content) + [OnPuback(Ack(9, 0))], net);
            Count(s.out.list) == s.out.maximum == 1 && Count(t.out.list) >= 2 && t.out.maximum == 1
  {
    hide Start, Run, Filling, ReleaseToInflight, Count;
    var s := FullWindow(content);
    FullWindowReached(content, net);
    FullWindowCounts(content);
    RunMore(Start(V5, 1, 20), Filling(content), OnPuback(Ack(9, 0)), net);
    ReleaseWindow(s.out.list, 1, s.wire, net);
  }

  lemma FlowStep(s: State, e: Event, net: Net)
    requires Plain(s.out.list) && s.out.quota <= s.out.maximum
    requires Proper(s, e) && AllSent(net)
    ensures var t := Next(s, e, net);
            && Plain(t.out.list) && t.out.quota <= t.out.maximum == s.out.maximum
            && Credit(t) <= Credit(s)
            && (Credit(s) <= s.out.maximum ==> Credit(t) == Credit(s))
  {
    CreditLaw(s, e, net);
    var t := Next(s, e, net);
    NoFailures(t.wire[|s.wire|..]);
    if Retired(s, e) == 1 { SomethingOut(s, e); }
  }

  lemma SomethingOut(s: State, e: Event)
    requires Retired(s, e) == 1
    ensures Count(s.out.list) >= 1
  {
    var c := CreditedBy(s, e);
    CountSplit(s.out.list, Find(s.out.list, c.mid, c.qos).k);
  }

  ghost predicate ProperRun(s: State, es: seq<Event>, net: Net)
    decreases |es|
  {
    es == [] || (Proper(s, es[0]) && ProperRun(Next(s, es[0], net), es[1..], net))
  }

  lemma {:induction false} FlowRun(s: State, es: seq<Event>, net: Net)
    requires Plain(s.out.list) && s.out.quota <= s.out.maximum
    requires ProperRun(s, es, net) && AllSent(net)
    ensures var t := Run(s, es, net);
            && t.out.maximum == s.out.maximum
            && Credit(t) <= Credit(s)
            && (Credit(s) <= s.out.maximum ==> Credit(t) == Credit(s))
    decreases |es|
  {
    if es != [] {
      FlowStep(s, es[0], net);
      FlowRun(Next(s, es[0], net), es[1..], net);
    }
  }

  /** From an accepted CONNACK on, as long as sends succeed and the broker keeps
      to the protocol, at most the maximum more messages are out than were out
      when CONNACK came; with none out then, never more than the maximum. */
  lemma FlowControl(s0: State, max: Option<uint16>, es: seq<Event>, net: Net)
    requires Plain(s0.out.list) && max != Some(0)
    requires var s := Connack(s0, 0, max, net).s; ProperRun(s, es, net)
    requires AllSent(net)
    ensures var s := Connack(s0, 0, max, net).s;
            var t := Run(s, es, net);
            && t.out.maximum == s.out.maximum
            && t.out.quota + Count(t.out.list) <= t.out.maximum + Count(s0.out.list)
            && (Count(s0.out.list) == 0 ==>
                  t.out.quota + Count(t.out.list) == t.out.maximum && Count(t.out.list) <= t.out.maximum)
  {
    RetrySame(s0.out.list, s0.wire, net);
    SameStates(s0.out.list, Retry(s0.out.list, s0.wire, net).list);
    FlowRun(Connack(s0, 0, max, net).s, es, net);
  }
}
