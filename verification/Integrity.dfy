/**
 * Nothing is invented and nothing altered: what is delivered was received, and
 * what is sent was published, content included.
 */
module Integrity {
  import opened Mqtt
  import opened Inflight
  import opened Delivery
  import opened History

  /** The application published a message like this. */
  predicate Published(es: seq<Event>, m: Message) { DoPublish(m.qos, m.content) in es }

  /** A QoS 2 PUBLISH with this identifier and content came in. */
  predicate Received(es: seq<Event>, m: Message) { OnPublish(Publish(2, m.mid, m.dup, m.content)) in es }

  ghost predicate ReceivedAtOnce(es: seq<Event>, qos: nat, content: Content) {
    exists mid, dup :: OnPublish(Publish(qos, mid, dup, content)) in es
  }

  predicate AllPublished(es: seq<Event>, l: seq<Message>) { forall k | 0 <= k < |l| :: Published(es, l[k]) }

  predicate AllReceived(es: seq<Event>, l: seq<Message>) { forall k | 0 <= k < |l| :: Received(es, l[k]) }

  predicate WirePublished(es: seq<Event>, w: seq<Sent>) {
    forall i | 0 <= i < |w| :: w[i].SentPublish? ==> Published(es, w[i].msg)
  }

  ghost predicate Genuine(es: seq<Event>, n: Note) {
    match n
    case Delivered(m) => Received(es, m)
    case DeliveredAtOnce(qos, content) => ReceivedAtOnce(es, qos, content)
    case _ => true
  }

  ghost predicate NotesGenuine(es: seq<Event>, notes: seq<Note>) { forall i | 0 <= i < |notes| :: Genuine(es, notes[i]) }

  /** Every message held, sent or delivered stems from an event of the run. */
  ghost predicate Faithful(es: seq<Event>, s: State) {
    && AllPublished(es, s.out.list) && WirePublished(es, s.wire)
    && AllReceived(es, s.inn.list) && NotesGenuine(es, s.notes)
  }

  lemma {:induction false} ReleasePublished(es: seq<Event>, l: seq<Message>, quota: nat, wire: seq<Sent>, net: Net)
    requires AllPublished(es, l) && WirePublished(es, wire)
    ensures var w := ReleaseToInflight(l, quota, wire, net); AllPublished(es, w.list) && WirePublished(es, w.wire)
  {
    if l != [] && quota > 0 {
      assert Published(es, l[0]) && AllPublished(es, l[1..]);
      var sent := SentPublish(Release(l[0]), net(|wire|));
      if l[0].qos > 0 && l[0].state == Invalid {
        assert Published(es, sent.msg);
        ReleasePublished(es, l[1..], Decrement(quota), wire + [sent], net);
      } else {
        ReleasePublished(es, l[1..], quota, wire, net);
      }
    }
  }

  lemma {:induction false} ResetPublished(es: seq<Event>, l: seq<Message>, quota: nat)
    requires AllPublished(es, l)
    ensures AllPublished(es, ResetOut(l, quota).list)
  {
    if l != [] {
      assert Published(es, l[0]) && AllPublished(es, l[1..]);
      ResetPublished(es, l[1..], if quota != 0 then Decrement(quota) else quota);
    }
  }

  lemma {:induction false} RetryPublished(es: seq<Event>, l: seq<Message>, wire: seq<Sent>, net: Net)
    requires AllPublished(es, l) && WirePublished(es, wire)
    ensures var w := Retry(l, wire, net); AllPublished(es, w.list) && WirePublished(es, w.wire)
  {
    if l != [] {
      assert Published(es, l[0]) && AllPublished(es, l[1..]);
      var sends := RetrySends(l[0], net(|wire|));
      assert WirePublished(es, sends);
      RetryPublished(es, l[1..], wire + sends, net);
    }
  }

  lemma {:induction false} ResetReceived(es: seq<Event>, l: seq<Message>, quota: nat)
    requires AllReceived(es, l)
    ensures AllReceived(es, ResetIn(l, quota).list)
  {
    if l != [] {
      assert Received(es, l[0]) && AllReceived(es, l[1..]);
      ResetReceived(es, l[1..], quota);
      ResetReceived(es, l[1..], Decrement(quota));
    }
  }

  lemma ReleaseMoreFaithful(es: seq<Event>, s: State, net: Net)
    requires Faithful(es, s)
    ensures Faithful(es, ReleaseMore(s, net).s)
  {
    ReleasePublished(es, s.out.list, s.out.quota, s.wire, net);
    hide AllPublished, WirePublished, AllReceived, NotesGenuine;
  }

  lemma CompleteFaithful(es: seq<Event>, s: State, k: nat, refused: bool)
    requires Faithful(es, s) && k < |s.out.list|
    ensures Faithful(es, Complete(s, k, refused))
  {
    hide Published, Received, Genuine;
    assert forall i | 0 <= i < |s.out.list| - 1 :: Without(s.out.list, k)[i] == s.out.list[if i < k then i else i + 1];
    assert Genuine(es, Ending(s.out.list[k], refused)) by { NoDelivery(es, s.out.list[k]); }
  }

  lemma NoDelivery(es: seq<Event>, m: Message)
    ensures Genuine(es, Ending(m, true)) && Genuine(es, Ending(m, false)) && Genuine(es, Appended(m.serial))
    ensures Genuine(es, Dropped(m.serial)) && Genuine(es, Stored(m.serial))
  {
  }

  lemma CreditFaithful(es: seq<Event>, s: State)
    requires Faithful(es, s)
    ensures Faithful(es, CreditOut(s)) && Faithful(es, CreditIn(s)) && Faithful(es, ChargeIn(s))
  {
  }

  lemma AckFaithful(es: seq<Event>, s: State, qos: nat, ack: Ack, net: Net)
    requires Faithful(es, s)
    ensures Faithful(es, PubAckComp(s, qos, ack, net).s)
  {
    hide Faithful, ReleaseMore, Complete;
    CreditFaithful(es, s);
    if s.state == Active && ack.Ack? {
      var s' := CreditOut(s);
      match Find(s'.out.list, ack.mid, qos)
      case WrongQos =>
      case Missing => ReleaseMoreFaithful(es, s', net);
      case Found(k) =>
        CompleteFaithful(es, s', k, false);
        ReleaseMoreFaithful(es, Complete(s', k, false), net);
    }
  }

  lemma SendAckFaithful(es: seq<Event>, s: State, command: byte, mid: uint16, net: Net)
    requires Faithful(es, s)
    ensures Faithful(es, SendAck(s, command, mid, net).s)
  {
    hide Published, AllReceived, NotesGenuine;
  }

  lemma PubRecFaithful(es: seq<Event>, s: State, ack: Ack, net: Net)
    requires Faithful(es, s)
    ensures Faithful(es, PubRec(s, ack, net).s)
  {
    hide Faithful, ReleaseMore, Complete, SendAck;
    if s.state == Active && ack.Ack? {
      match Find(s.out.list, ack.mid, 2)
      case Found(k) =>
        var m := s.out.list[k].(state := WaitForPubcomp);
        MarkFaithful(es, s, k);
        SendAckFaithful(es, s.(out := s.out.(list := s.out.list[k := m])), CMD_PUBREL + 2, ack.mid, net);
        CompleteFaithful(es, s, k, true);
        CreditFaithful(es, Complete(s, k, true));
        ReleaseMoreFaithful(es, CreditOut(Complete(s, k, true)), net);
      case _ =>
        SendAckFaithful(es, s, CMD_PUBREL + 2, ack.mid, net);
        CreditFaithful(es, s);
        ReleaseMoreFaithful(es, CreditOut(s), net);
    }
  }

  lemma MarkFaithful(es: seq<Event>, s: State, k: nat)
    requires Faithful(es, s) && k < |s.out.list|
    ensures Faithful(es, s.(out := s.out.(list := s.out.list[k := s.out.list[k].(state := WaitForPubcomp)])))
  {
    assert Published(es, s.out.list[k]);
    hide WirePublished, AllReceived, NotesGenuine;
  }

  lemma PublishOutFaithful(es: seq<Event>, s: State, qos: nat, content: Content, net: Net)
    requires Faithful(es, s) && DoPublish(qos, content) in es
    ensures Faithful(es, PublishOut(s, qos, content, net).s)
  {
    var o := DrawMid(s.out);
    var m := Message(o.drawn, o.lastMid, qos, Invalid, false, content);
    assert Published(es, m);
    NoDelivery(es, m);
    var t := s.(out := o.(list := o.list + [m], queueLen := o.queueLen + 1), notes := s.notes + [Appended(m.serial)]);
    hide Published, Received, Genuine, ReleaseMore;
    if qos > 0 {
      assert Faithful(es, t);
      ReleaseMoreFaithful(es, t, net);
    }
  }

  lemma PublishInFaithful(es: seq<Event>, s: State, p: Publish, net: Net)
    requires Faithful(es, s) && OnPublish(p) in es
    ensures Faithful(es, PublishIn(s, p, net).s)
  {
    if s.state == Active && p.Publish? && !Exhausted(s, p.qos) {
      assert ReceivedAtOnce(es, p.qos, p.content);
      var m := Message(s.inn.stored + 1, p.mid, 2, WaitForPubrel, p.dup, p.content);
      assert p.qos == 2 ==> Received(es, m);
      NoDelivery(es, m);
      SendAckFaithful(es, s, CMD_PUBACK, p.mid, net);
      SendAckFaithful(es, s, CMD_PUBREC, p.mid, net);
      hide Published, Received, Genuine, ReceivedAtOnce, AllPublished;
      assert Genuine(es, DeliveredAtOnce(p.qos, p.content)) by { AtOnce(es, p.qos, p.content); }
    }
  }

  lemma AtOnce(es: seq<Event>, qos: nat, content: Content)
    requires ReceivedAtOnce(es, qos, content)
    ensures Genuine(es, DeliveredAtOnce(qos, content))
  {
  }

  lemma PubRelFaithful(es: seq<Event>, s: State, flags: byte, ack: Ack, net: Net)
    requires Faithful(es, s)
    ensures Faithful(es, PubRel(s, flags, ack, net).s)
  {
    hide Faithful, SendAck, TakeOut;
    if ack.Ack? {
      CreditFaithful(es, s);
      var a := SendAck(CreditIn(s), CMD_PUBCOMP, ack.mid, net);
      SendAckFaithful(es, CreditIn(s), CMD_PUBCOMP, ack.mid, net);
      match Find(a.s.inn.list, ack.mid, 2)
      case Found(k) => TakeOutFaithful(es, a.s, k);
      case _ =>
    }
  }

  lemma TakeOutFaithful(es: seq<Event>, s: State, k: nat)
    requires Faithful(es, s) && k < |s.inn.list|
    ensures Faithful(es, TakeOut(s, k, Delivered(s.inn.list[k])))
    ensures Faithful(es, TakeOut(s, k, Dropped(s.inn.list[k].serial)))
  {
    var m := s.inn.list[k];
    assert Received(es, m);
    NoDelivery(es, m);
    assert Genuine(es, Delivered(m));
    hide Published, Received, Genuine;
    assert forall i | 0 <= i < |s.inn.list| - 1 :: Without(s.inn.list, k)[i] == s.inn.list[if i < k then i else i + 1];
  }

  lemma FaithfulStep(es: seq<Event>, s: State, e: Event, net: Net)
    requires Faithful(es, s) && e in es
    ensures Faithful(es, Next(s, e, net))
  {
    match e
    case DoPublish(qos, content) => PublishOutFaithful(es, s, qos, content, net);
    case DoReset =>
      ResetPublished(es, s.out.list, s.out.maximum);
      ResetReceived(es, s.inn.list, s.inn.maximum);
    case OnConnack(_, _) => RetryPublished(es, s.out.list, s.wire, net);
    case OnPuback(a) => AckFaithful(es, s, 1, a, net);
    case OnPubcomp(a) => AckFaithful(es, s, 2, a, net);
    case OnPubrec(a) => PubRecFaithful(es, s, a, net);
    case OnPublish(p) => PublishInFaithful(es, s, p, net);
    case OnPubrel(flags, a) => PubRelFaithful(es, s, flags, a, net);
    case _ =>
  }

  lemma {:induction false} FaithfulRun(all: seq<Event>, s: State, es: seq<Event>, net: Net)
    requires Faithful(all, s) && forall e | e in es :: e in all
    ensures Faithful(all, Run(s, es, net))
    decreases |es|
  {
    hide Faithful, Next;
    if es != [] {
      assert es[0] in es && forall e | e in es[1..] :: e in es;
      FaithfulStep(all, s, es[0], net);
      FaithfulRun(all, Next(s, es[0], net), es[1..], net);
    }
  }

  /** In every state of every run: each message delivered has the content, and for
      QoS 2 the identifier, of a PUBLISH that came in; each message sent, resent
      or waiting has the QoS and content of one that the application published. */
  lemma NothingInvented(protocol: Protocol, outMax: nat, inMax: nat, es: seq<Event>, net: Net)
    ensures Faithful(es, Run(Start(protocol, outMax, inMax), es, net))
  {
    FaithfulRun(es, Start(protocol, outMax, inMax), es, net);
  }

  // ---------- identifiers and commands on the wire ----------

  /** What the packet reader lets through: no packet identifier is 0. */
  predicate NonZero(e: Event) {
    match e
    case OnPuback(Ack(mid, _)) => mid != 0
    case OnPubcomp(Ack(mid, _)) => mid != 0
    case OnPubrec(Ack(mid, _)) => mid != 0
    case OnPubrel(_, Ack(mid, _)) => mid != 0
    case OnPublish(Publish(qos, mid, _, _)) => qos > 0 ==> mid != 0
    case _ => true
  }

  predicate Acknowledgement(command: byte) { command in {CMD_PUBACK, CMD_PUBREC, CMD_PUBREL + 2, CMD_PUBCOMP} }

  /** A message or an acknowledgement with an identifier. */
  predicate Addressed(x: Sent) {
    match x
    case SentPublish(m, _) => m.mid != 0 && m.qos <= 2
    case SentAck(command, mid, _) => mid != 0 && Acknowledgement(command)
  }

  predicate WireAddressed(w: seq<Sent>) { forall i | 0 <= i < |w| :: Addressed(w[i]) }

  predicate ListAddressed(l: seq<Message>) { forall k | 0 <= k < |l| :: l[k].mid != 0 && l[k].qos <= 2 }

  lemma SoundAddressed(o: Outbound)
    requires OutSound(o)
    ensures ListAddressed(o.list)
  {
    forall k | 0 <= k < |o.list| ensures o.list[k].mid != 0 && o.list[k].qos <= 2 { assert Phased(o.list[k]); }
  }

  lemma {:induction false} ReleaseAddressed(l: seq<Message>, quota: nat, wire: seq<Sent>, net: Net)
    requires ListAddressed(l) && WireAddressed(wire)
    ensures WireAddressed(ReleaseToInflight(l, quota, wire, net).wire)
  {
    if l != [] && quota > 0 {
      assert ListAddressed(l[1..]);
      if l[0].qos > 0 && l[0].state == Invalid {
        ReleaseAddressed(l[1..], Decrement(quota), wire + [SentPublish(Release(l[0]), net(|wire|))], net);
      } else {
        ReleaseAddressed(l[1..], quota, wire, net);
      }
    }
  }

  lemma {:induction false} RetryAddressed(l: seq<Message>, wire: seq<Sent>, net: Net)
    requires ListAddressed(l) && WireAddressed(wire)
    ensures WireAddressed(Retry(l, wire, net).wire)
  {
    if l != [] {
      assert ListAddressed(l[1..]);
      RetryAddressed(l[1..], wire + RetrySends(l[0], net(|wire|)), net);
    }
  }

  lemma ReleaseMoreAddressed(s: State, net: Net)
    requires OutSound(s.out) && WireAddressed(s.wire)
    ensures WireAddressed(ReleaseMore(s, net).s.wire)
  {
    SoundAddressed(s.out);
    ReleaseAddressed(s.out.list, s.out.quota, s.wire, net);
  }

  lemma PublishAddressed(s: State, qos: nat, content: Content, net: Net)
    requires OutSound(s.out) && OutConserved(s.out, s.notes) && WireAddressed(s.wire) && qos <= 2
    ensures WireAddressed(PublishOut(s, qos, content, net).s.wire)
  {
    if qos > 0 {
      AppendSound(s, qos, content);
      var o := DrawMid(s.out);
      var m := Message(o.drawn, o.lastMid, qos, Invalid, false, content);
      hide OutSound, ReleaseMore, WireAddressed;
      ReleaseMoreAddressed(s.(out := o.(list := o.list + [m], queueLen := o.queueLen + 1), notes := s.notes + [Appended(m.serial)]), net);
    }
  }

  lemma AckAddressed(s: State, qos: nat, ack: Ack, net: Net)
    requires OutSound(s.out) && OutConserved(s.out, s.notes) && WireAddressed(s.wire)
    ensures WireAddressed(PubAckComp(s, qos, ack, net).s.wire)
  {
    hide OutSound, OutConserved, ReleaseMore, WireAddressed, Complete;
    CreditOutSound(s);
    if s.state == Active && ack.Ack? {
      var s' := CreditOut(s);
      match Find(s'.out.list, ack.mid, qos)
      case WrongQos =>
      case Missing => ReleaseMoreAddressed(s', net);
      case Found(k) =>
        CompleteSound(s', k, false);
        assert Complete(s', k, false).wire == s.wire by { CompleteWire(s', k, false); }
        ReleaseMoreAddressed(Complete(s', k, false), net);
    }
  }

  lemma CompleteWire(s: State, k: nat, refused: bool)
    requires k < |s.out.list|
    ensures Complete(s, k, refused).wire == s.wire
  {
  }

  lemma PubRecAddressed(s: State, ack: Ack, net: Net)
    requires OutSound(s.out) && OutConserved(s.out, s.notes) && WireAddressed(s.wire) && (ack.Ack? ==> ack.mid != 0)
    ensures WireAddressed(PubRec(s, ack, net).s.wire)
  {
    if s.state == Active && ack.Ack? {
      if ack.reason < 0x80 || s.protocol != V5 {
        hide OutSound, OutConserved;
      } else {
        hide OutSound, OutConserved, ReleaseMore, WireAddressed, Complete;
        CreditOutSound(s);
        match Find(s.out.list, ack.mid, 2)
        case Found(k) =>
          CompleteSound(s, k, true);
          CompleteWire(s, k, true);
          CreditOutSound(Complete(s, k, true));
          ReleaseMoreAddressed(CreditOut(Complete(s, k, true)), net);
        case _ => ReleaseMoreAddressed(CreditOut(s), net);
      }
    }
  }

  lemma InboundAddressed(s: State, e: Event, net: Net)
    requires WireAddressed(s.wire) && NonZero(e) && (e.OnPublish? || e.OnPubrel?)
    ensures WireAddressed(Next(s, e, net).wire)
  {
    hide Exhausted, Find, Without;
  }

  lemma AddressedStep(s: State, e: Event, net: Net)
    requires OutSound(s.out) && OutConserved(s.out, s.notes) && WireAddressed(s.wire) && Possible(e) && NonZero(e)
    ensures WireAddressed(Next(s, e, net).wire)
  {
    hide OutSound, OutConserved, WireAddressed, PublishOut, PubAckComp, PubRec, PublishIn, PubRel, Retry;
    match e
    case DoPublish(qos, content) => PublishAddressed(s, qos, content, net);
    case OnConnack(_, _) =>
      SoundAddressed(s.out);
      RetryAddressed(s.out.list, s.wire, net);
    case OnPuback(a) => AckAddressed(s, 1, a, net);
    case OnPubcomp(a) => AckAddressed(s, 2, a, net);
    case OnPubrec(a) => PubRecAddressed(s, a, net);
    case OnPublish(_) => InboundAddressed(s, e, net);
    case OnPubrel(_, _) => InboundAddressed(s, e, net);
    case _ =>
  }

  /** Over every run in which no packet with identifier 0 is let in, whatever goes
      out has an identifier, and the acknowledgements are those four. */
  lemma {:induction false} AddressedRun(s: State, es: seq<Event>, net: Net)
    requires Sound(s) && WireAddressed(s.wire) && PossibleRun(es) && forall e | e in es :: NonZero(e)
    ensures WireAddressed(Run(s, es, net).wire)
    decreases |es|
  {
    hide OutSound, OutConserved, InSound, InConserved, WireAddressed, Next, NonZero;
    if es != [] {
      assert es[0] in es && forall e | e in es[1..] :: e in es;
      AddressedStep(s, es[0], net);
      SoundStep(s, es[0], net);
      AddressedRun(Next(s, es[0], net), es[1..], net);
    }
  }
}
