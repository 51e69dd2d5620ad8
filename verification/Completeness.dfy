/**
 * Nothing is passed over: what the application is given over a run is all that came
 * in for it, and what it publishes with QoS 0 is all handed to the network.
 */
module Completeness {
  import opened Mqtt
  import opened Inflight
  import opened Delivery
  import opened History

  // ---------- what comes in ----------

  /** The calls of on_message. */
  function Given(notes: seq<Note>): seq<Content> {
    if notes == [] then []
    else
      Given(notes[..|notes| - 1]) +
      match notes[|notes| - 1]
      case DeliveredAtOnce(_, content) => [content]
      case Delivered(m) => [m.content]
      case _ => []
  }

  lemma GivenMore(notes: seq<Note>, n: Note)
    ensures Given(notes + [n]) ==
            Given(notes) + match n case DeliveredAtOnce(_, content) => [content] case Delivered(m) => [m.content] case _ => []
  {
    assert (notes + [n])[..|notes|] == notes;
  }

  /** A client that takes a message of this QoS: version 5 keeps to the receive
      quota. */
  predicate Takes(s: State, qos: nat) { s.state == Active && (qos == 0 || s.protocol != V5 || s.inn.quota > 0) }

  /** A PUBREL that the client answers, and the first message held under its
      identifier. */
  function Released(s: State, e: Event): Option<nat> {
    match e
    case OnPubrel(flags, Ack(mid, _)) => if s.state == Active && (s.protocol == V31 || flags == 2) then IndexOf(s.inn.list, mid) else None
    case _ => None
  }

  /** What an event owes to the application: a PUBLISH of QoS 0 or 1 at once, one of
      QoS 2 when it is released, if PUBCOMP can be sent. */
  function Owed(s: State, e: Event, net: Net): seq<Content> {
    match e
    case OnPublish(Publish(qos, _, _, content)) => if qos <= 1 && Takes(s, qos) then [content] else []
    case OnPubrel(_, _) =>
      if Released(s, e).Some? && net(|s.wire|) == SUCCESS then [s.inn.list[Released(s, e).value].content] else []
    case _ => []
  }

  function AllOwed(s: State, es: seq<Event>, net: Net): seq<Content>
    decreases |es|
  {
    if es == [] then [] else Owed(s, es[0], net) + AllOwed(Next(s, es[0], net), es[1..], net)
  }

  lemma GivenPublish(s: State, p: Publish, net: Net)
    ensures Given(PublishIn(s, p, net).s.notes) == Given(s.notes) + Owed(s, OnPublish(p), net)
  {
    hide Given;
    if p.Publish? {
      GivenMore(s.notes, DeliveredAtOnce(p.qos, p.content));
      GivenMore(s.notes, Stored(s.inn.stored + 1));
    }
  }

  lemma GivenPubrel(s: State, flags: byte, ack: Ack, net: Net)
    requires AllHeld(s.inn.list)
    ensures Given(PubRel(s, flags, ack, net).s.notes) == Given(s.notes) + Owed(s, OnPubrel(flags, ack), net)
  {
    hide Given, Without;
    if ack.Ack? {
      match IndexOf(s.inn.list, ack.mid)
      case Some(k) =>
        GivenMore(s.notes, Delivered(s.inn.list[k]));
        GivenMore(s.notes, Dropped(s.inn.list[k].serial));
      case None =>
    }
  }

  /** No other event gives anything. */
  lemma GivenOther(s: State, e: Event, net: Net)
    requires !e.OnPublish? && !e.OnPubrel?
    ensures Given(Next(s, e, net).notes) == Given(s.notes)
  {
    hide Given, ReleaseToInflight, Retry, ResetOut, ResetIn, Without;
    match e
    case DoPublish(_, _) => GivenMore(s.notes, Appended(s.out.drawn + 1));
    case OnPuback(Ack(mid, _)) =>
      if Find(s.out.list, mid, 1).Found? { GivenMore(s.notes, Ending(s.out.list[Find(s.out.list, mid, 1).k], false)); }
    case OnPubcomp(Ack(mid, _)) =>
      if Find(s.out.list, mid, 2).Found? { GivenMore(s.notes, Ending(s.out.list[Find(s.out.list, mid, 2).k], false)); }
    case OnPubrec(Ack(mid, _)) =>
      if Find(s.out.list, mid, 2).Found? { GivenMore(s.notes, Ending(s.out.list[Find(s.out.list, mid, 2).k], true)); }
    case _ =>
  }

  lemma GivenExact(s: State, e: Event, net: Net)
    requires AllHeld(s.inn.list)
    ensures Given(Next(s, e, net).notes) == Given(s.notes) + Owed(s, e, net)
  {
    hide Given, PublishIn, PubRel;
    match e
    case OnPublish(p) => GivenPublish(s, p, net);
    case OnPubrel(flags, a) => GivenPubrel(s, flags, a, net);
    case _ => GivenOther(s, e, net);
  }

  /** Over every run the application is given what it is owed, in order and once
      each, and nothing else. */
  lemma {:induction false} GivenRun(s: State, es: seq<Event>, net: Net)
    requires Sound(s) && PossibleRun(es)
    ensures Given(Run(s, es, net).notes) == Given(s.notes) + AllOwed(s, es, net)
    decreases |es|
  {
    hide Given, Next, Owed, OutSound, OutConserved, InConserved;
    if es != [] {
      assert es[0] in es && forall e | e in es[1..] :: e in es;
      GivenExact(s, es[0], net);
      SoundStep(s, es[0], net);
      GivenRun(Next(s, es[0], net), es[1..], net);
    }
  }

  /** What is held for PUBREL after an event: one message more exactly with a QoS 2
      PUBLISH that the client takes, that message less exactly with a PUBREL for
      it. */
  lemma HeldExact(s: State, e: Event, net: Net)
    requires AllHeld(s.inn.list)
    ensures var l, t := s.inn.list, Next(s, e, net).inn.list;
            if e.OnPublish? && e.publish.Publish? && e.publish.qos == 2 && Takes(s, 2) then
              t == l + [Message(s.inn.stored + 1, e.publish.mid, 2, WaitForPubrel, e.publish.dup, e.publish.content)]
            else if Released(s, e).Some? then t == l[..Released(s, e).value] + l[Released(s, e).value + 1..]
            else t == l
  {
    hide PublishIn, PubRel;
    match e
    case OnPublish(p) => HeldPublish(s, p, net);
    case OnPubrel(flags, a) => HeldPubrel(s, flags, a, net);
    case _ => HeldOther(s, e, net);
  }

  lemma HeldPublish(s: State, p: Publish, net: Net)
    ensures PublishIn(s, p, net).s.inn.list ==
            if p.Publish? && p.qos == 2 && Takes(s, 2)
            then s.inn.list + [Message(s.inn.stored + 1, p.mid, 2, WaitForPubrel, p.dup, p.content)] else s.inn.list
  {
  }

  lemma HeldPubrel(s: State, flags: byte, ack: Ack, net: Net)
    requires AllHeld(s.inn.list)
    ensures var l, k := s.inn.list, Released(s, OnPubrel(flags, ack));
            PubRel(s, flags, ack, net).s.inn.list == if k.Some? then l[..k.value] + l[k.value + 1..] else l
  {
  }

  lemma HeldOther(s: State, e: Event, net: Net)
    requires AllHeld(s.inn.list) && !e.OnPublish? && !e.OnPubrel?
    ensures Next(s, e, net).inn.list == s.inn.list
  {
    hide ReleaseToInflight, Retry, ResetOut, ResetIn, Find, Without;
    if e.DoReset? { ResetInKeepsAll(s.inn.list, s.inn.maximum); }
  }

  // ---------- the receive quota ----------

  /** Every unit of the receive quota that is missing is a message held. */
  predicate Balanced(i: Inbound) { i.quota + |i.list| == i.maximum }

  /** A broker that keeps to the Receive Maximum, and to its identifiers. */
  predicate Orderly(s: State, e: Event) {
    match e
    case OnPublish(Publish(qos, _, _, _)) => qos > 0 ==> |s.inn.list| < s.inn.maximum
    case OnPubrel(_, Ack(_, _)) => Released(s, e).Some? || s.state != Active || (s.protocol != V31 && e.flags != 2)
    case DoConnectInit => s.inn.list == []
    case DoSetReceiveMaximum(_) => s.inn.list == []
    case DoReset => |s.inn.list| <= s.inn.maximum
    case _ => true
  }

  /** With such a broker the quota is what is left of the maximum, so that a message
      is refused exactly when as many are held as the maximum says. */
  lemma BalancedStep(s: State, e: Event, net: Net)
    requires InSound(s.inn) && Balanced(s.inn) && Orderly(s, e)
    ensures Balanced(Next(s, e, net).inn)
    ensures forall qos: nat | s.state == Active :: Takes(s, qos) <==> qos == 0 || s.protocol != V5 || |s.inn.list| < s.inn.maximum
  {
    hide ReleaseToInflight, Retry, ResetOut;
    if e.DoReset? { ResetInKeepsAll(s.inn.list, s.inn.maximum); }
  }

  ghost predicate OrderlyRun(s: State, es: seq<Event>, net: Net)
    decreases |es|
  {
    es == [] || (Possible(es[0]) && Orderly(s, es[0]) && OrderlyRun(Next(s, es[0], net), es[1..], net))
  }

  lemma {:induction false} BalancedRun(s: State, es: seq<Event>, net: Net)
    requires Sound(s) && Balanced(s.inn) && OrderlyRun(s, es, net)
    ensures Balanced(Run(s, es, net).inn)
    decreases |es|
  {
    hide OutSound, OutConserved, InConserved, Next, Orderly, Balanced;
    if es != [] {
      BalancedStep(s, es[0], net);
      SoundStep(s, es[0], net);
      BalancedRun(Next(s, es[0], net), es[1..], net);
    }
  }

  // ---------- what goes out ----------

  /** The QoS 0 messages handed to the network. */
  function ZeroSends(w: seq<Sent>): seq<Content> {
    if w == [] then []
    else
      ZeroSends(w[..|w| - 1]) +
      match w[|w| - 1]
      case SentPublish(m, _) => if m.qos == 0 then [m.content] else []
      case SentAck(_, _, _) => []
  }

  /** The QoS 0 messages published. */
  function ZeroPublished(es: seq<Event>): seq<Content> {
    if es == [] then []
    else (if es[0].DoPublish? && es[0].outQos == 0 then [es[0].outContent] else []) + ZeroPublished(es[1..])
  }

  lemma {:induction false} ZeroNone(w: seq<Sent>, w': seq<Sent>)
    requires w <= w' && forall i | |w| <= i < |w'| :: w'[i].SentPublish? ==> w'[i].msg.qos != 0
    ensures ZeroSends(w') == ZeroSends(w)
    decreases |w'|
  {
    if |w'| > |w| {
      var u := w'[..|w'| - 1];
      assert w <= u && forall i | |w| <= i < |u| :: u[i] == w'[i];
      ZeroNone(w, u);
    } else {
      assert w' == w;
    }
  }

  /** No walk and no retry sends a QoS 0 message. */
  lemma {:induction false} WalkZero(l: seq<Message>, quota: nat, wire: seq<Sent>, net: Net)
    ensures ZeroSends(ReleaseToInflight(l, quota, wire, net).wire) == ZeroSends(wire)
  {
    if l != [] && quota > 0 {
      if l[0].qos > 0 && l[0].state == Invalid {
        var wire' := wire + [SentPublish(Release(l[0]), net(|wire|))];
        ZeroNone(wire, wire');
        WalkZero(l[1..], Decrement(quota), wire', net);
      } else {
        WalkZero(l[1..], quota, wire, net);
      }
    }
  }

  lemma {:induction false} RetryZero(l: seq<Message>, wire: seq<Sent>, net: Net)
    requires AllPhased(l)
    ensures ZeroSends(Retry(l, wire, net).wire) == ZeroSends(wire)
  {
    if l != [] {
      assert Phased(l[0]) && AllPhased(l[1..]);
      var wire' := wire + RetrySends(l[0], net(|wire|));
      ZeroNone(wire, wire');
      RetryZero(l[1..], wire', net);
    }
  }

  lemma WalkMoreZero(s: State, net: Net)
    ensures ZeroSends(ReleaseMore(s, net).s.wire) == ZeroSends(s.wire)
  {
    WalkZero(s.out.list, s.out.quota, s.wire, net);
  }

  /** A QoS 0 publish is handed to the network at once, under a fresh identifier, not
      as a duplicate, and its result is that of the send. */
  lemma ZeroPublish(s: State, content: Content, net: Net)
    requires OutSound(s.out)
    ensures var r := PublishOut(s, 0, content, net);
            && ZeroSends(r.s.wire) == ZeroSends(s.wire) + [content]
            && |r.s.wire| == |s.wire| + 1 && s.wire <= r.s.wire
            && (var x := r.s.wire[|s.wire|];
                && x.SentPublish? && x.msg.qos == 0 && !x.msg.dup && x.msg.content == content
                && x.msg.serial == s.out.drawn + 1 == r.s.out.drawn && x.msg.mid == MidOf(x.msg.serial)
                && x.rc == net(|s.wire|) == r.rc)
            && r.s.out.list == s.out.list && r.s.notes == s.notes
  {
    MidOfNext(s.out.drawn);
    var w := PublishOut(s, 0, content, net).s.wire;
    assert w[..|w| - 1] == s.wire;
    hide MidOf, NextMid;
  }

  /** A QoS 1 or 2 publish makes one message at the end of the list, and changes no
      other but for its state. */
  lemma QueuedPublish(s: State, qos: nat, content: Content, net: Net)
    requires OutSound(s.out) && (qos == 1 || qos == 2)
    ensures var l, r := s.out.list, PublishOut(s, qos, content, net).s;
            && |r.out.list| == |l| + 1 && r.out.queueLen == s.out.queueLen + 1
            && (forall k | 0 <= k < |l| :: SameMessage(l[k], r.out.list[k]))
            && (var m := r.out.list[|l|];
                && m.qos == qos && m.content == content && !m.dup
                && m.serial == s.out.drawn + 1 == r.out.drawn && m.mid == MidOf(m.serial)
                && r.notes == s.notes + [Appended(m.serial)])
            && ZeroSends(r.wire) == ZeroSends(s.wire)
  {
    MidOfNext(s.out.drawn);
    var o := DrawMid(s.out);
    var m := Message(o.drawn, o.lastMid, qos, Invalid, false, content);
    var l' := o.list + [m];
    ReleaseAlike(l', o.quota, s.wire, net);
    WalkZero(l', o.quota, s.wire, net);
    ReleaseDup(l', o.quota, s.wire, net);
    hide ReleaseToInflight, MidOf, NextMid;
    assert SameMessage(l'[|s.out.list|], ReleaseToInflight(l', o.quota, s.wire, net).list[|s.out.list|]);
    assert forall k | 0 <= k < |s.out.list| :: l'[k] == s.out.list[k];
  }

  lemma {:induction false} ReleaseDup(l: seq<Message>, quota: nat, wire: seq<Sent>, net: Net)
    ensures var r := ReleaseToInflight(l, quota, wire, net).list; |r| == |l| && forall k | 0 <= k < |l| :: r[k].dup == l[k].dup
  {
    if l != [] && quota > 0 {
      if l[0].qos > 0 && l[0].state == Invalid {
        ReleaseDup(l[1..], Decrement(quota), wire + [SentPublish(Release(l[0]), net(|wire|))], net);
      } else {
        ReleaseDup(l[1..], quota, wire, net);
      }
    }
  }

  lemma ZeroExact(s: State, e: Event, net: Net)
    requires OutSound(s.out) && Possible(e)
    ensures ZeroSends(Next(s, e, net).wire) ==
            ZeroSends(s.wire) + if e.DoPublish? && e.outQos == 0 then [e.outContent] else []
  {
    hide ZeroSends, ReleaseMore, PublishOut, Complete, Retry, OutSound;
    ZeroNone(s.wire, s.wire);
    match e
    case DoPublish(qos, content) => if qos == 0 { ZeroPublish(s, content, net); } else { QueuedPublish(s, qos, content, net); }
    case OnConnack(_, _) => ListPhased(s.out); RetryZero(s.out.list, s.wire, net);
    case OnPuback(a) => AckZero(s, 1, a, net);
    case OnPubcomp(a) => AckZero(s, 2, a, net);
    case OnPubrec(a) => PubRecZero(s, a, net);
    case OnPublish(Publish(qos, mid, _, _)) => ZeroNone(s.wire, Next(s, e, net).wire);
    case OnPubrel(_, Ack(mid, _)) => ZeroNone(s.wire, Next(s, e, net).wire);
    case _ =>
  }

  lemma ListPhased(o: Outbound)
    requires OutSound(o)
    ensures AllPhased(o.list)
  {
  }

  lemma AckZero(s: State, qos: nat, ack: Ack, net: Net)
    ensures ZeroSends(PubAckComp(s, qos, ack, net).s.wire) == ZeroSends(s.wire)
  {
    hide ZeroSends, ReleaseMore, Without;
    if s.state == Active && ack.Ack? {
      var s' := CreditOut(s);
      match Find(s'.out.list, ack.mid, qos)
      case WrongQos =>
      case Missing => WalkMoreZero(s', net);
      case Found(k) => WalkMoreZero(Complete(s', k, false), net);
    }
  }

  lemma PubRecZero(s: State, ack: Ack, net: Net)
    ensures ZeroSends(PubRec(s, ack, net).s.wire) == ZeroSends(s.wire)
  {
    hide ZeroSends, ReleaseMore, Without;
    if s.state == Active && ack.Ack? {
      ZeroNone(s.wire, s.wire + [SentAck(CMD_PUBREL + 2, ack.mid, net(|s.wire|))]);
      match Find(s.out.list, ack.mid, 2)
      case Found(k) => WalkMoreZero(CreditOut(Complete(s, k, true)), net);
      case _ => WalkMoreZero(CreditOut(s), net);
    }
  }

  lemma Regroup(a: seq<Content>, b: seq<Content>, c: seq<Content>)
    ensures (a + b) + c == a + (b + c)
  {
  }

  lemma SoundOut(s: State)
    requires Sound(s)
    ensures OutSound(s.out)
  {
  }

  /** Over every run the QoS 0 messages handed to the network are those published, in
      order and once each. */
  lemma {:induction false} ZeroRun(s: State, es: seq<Event>, net: Net)
    requires Sound(s) && PossibleRun(es)
    ensures ZeroSends(Run(s, es, net).wire) == ZeroSends(s.wire) + ZeroPublished(es)
    decreases |es|
  {
    hide ZeroSends, Next, Sound, OutSound, Possible;
    if es != [] {
      var t, one := Next(s, es[0], net), if es[0].DoPublish? && es[0].outQos == 0 then [es[0].outContent] else [];
      assert es[0] in es && forall e | e in es[1..] :: e in es;
      SoundOut(s);
      ZeroExact(s, es[0], net);
      SoundStep(s, es[0], net);
      ZeroRun(t, es[1..], net);
      Regroup(ZeroSends(s.wire), one, ZeroPublished(es[1..]));
    }
  }
}
