/**
 * QoS 2 on the receiving side (section 4.3.3 of MQTT Version 5.0): exactly once
 * per identifier, as long as no PUBLISH names an identifier that is still held.
 */
module Duplicates {
  import opened Mqtt
  import opened Inflight
  import opened Delivery
  import opened History

  predicate Distinct(l: seq<Message>) { forall i, j | 0 <= i < j < |l| :: l[i].mid != l[j].mid }

  predicate Holding(l: seq<Message>, mid: uint16) { exists i | 0 <= i < |l| :: l[i].mid == mid }

  /** A QoS 2 PUBLISH that is accepted although its identifier is held: the code
      does not look for an equal one before it queues the message. */
  predicate Repeats(s: State, e: Event) {
    && s.state == Active && e.OnPublish? && e.publish.Publish? && e.publish.qos == 2
    && !Exhausted(s, 2) && Holding(s.inn.list, e.publish.mid)
  }

  lemma WithoutDistinct(l: seq<Message>, k: nat)
    requires Distinct(l) && k < |l|
    ensures Distinct(Without(l, k)) && !Holding(Without(l, k), l[k].mid)
  {
    var w := Without(l, k);
    forall i | 0 <= i < |w| ensures w[i] == l[if i < k then i else i + 1] {}
  }

  lemma AppendDistinct(l: seq<Message>, m: Message)
    requires Distinct(l)
    ensures Distinct(l + [m]) <==> !Holding(l, m.mid)
  {
    var l' := l + [m];
    if Holding(l, m.mid) {
      var i :| 0 <= i < |l| && l[i].mid == m.mid;
      assert l'[i].mid == l'[|l|].mid;
    }
  }

  /** Identifiers of held messages stay distinct exactly as long as no accepted
      PUBLISH repeats one. */
  lemma DistinctExact(s: State, e: Event, net: Net)
    requires Distinct(s.inn.list) && InSound(s.inn)
    ensures Distinct(Next(s, e, net).inn.list) <==> !Repeats(s, e)
  {
    match e
    case OnPublish(Publish(2, mid, dup, content)) =>
      AppendDistinct(s.inn.list, Message(s.inn.stored + 1, mid, 2, WaitForPubrel, dup, content));
    case OnPubrel(_, Ack(mid, _)) =>
      var k := IndexOf(s.inn.list, mid);
      if k.Some? { WithoutDistinct(s.inn.list, k.value); }
    case DoReset => ResetInKeepsAll(s.inn.list, s.inn.maximum);
    case _ =>
  }

  predicate NoRepeats(s: State, es: seq<Event>, net: Net)
    decreases |es|
  {
    es == [] || (Possible(es[0]) && !Repeats(s, es[0]) && NoRepeats(Next(s, es[0], net), es[1..], net))
  }

  lemma {:induction false} DistinctRun(s: State, es: seq<Event>, net: Net)
    requires Sound(s) && Distinct(s.inn.list) && NoRepeats(s, es, net)
    ensures Distinct(Run(s, es, net).inn.list)
    decreases |es|
  {
    hide OutSound, OutConserved, InConserved, Next, Distinct, Repeats;
    if es != [] {
      DistinctExact(s, es[0], net);
      SoundStep(s, es[0], net);
      DistinctRun(Next(s, es[0], net), es[1..], net);
    }
  }

  /** With distinct identifiers, PUBREL takes out the one message stored under its
      identifier and delivers it, unless PUBCOMP cannot be sent; any further
      PUBREL for it delivers nothing. */
  lemma PubrelDeliversTheOne(s: State, flags: byte, k: nat, reason: byte, net: Net, again: Ack)
    requires Distinct(s.inn.list) && InSound(s.inn) && k < |s.inn.list|
    requires s.state == Active && (s.protocol == V31 || flags == 2)
    requires again.Ack? && again.mid == s.inn.list[k].mid
    ensures var m := s.inn.list[k];
            var t := PubRel(s, flags, Ack(m.mid, reason), net).s;
            && t.notes == s.notes + [if net(|s.wire|) == SUCCESS then Delivered(m) else Dropped(m.serial)]
            && t.inn.list == Without(s.inn.list, k) && !Holding(t.inn.list, m.mid)
            && PubRel(t, flags, again, net).s.notes == t.notes
  {
    var m := s.inn.list[k];
    var j := IndexOf(s.inn.list, m.mid);
    assert j.None? ==> m in s.inn.list;
    assert j == Some(k);
    WithoutDistinct(s.inn.list, k);
  }

  /** A connected client that holds nothing. */
  function Ready(): State { Start(V5, 20, 20).(state := Active) }

  lemma ReadySound()
    ensures Sound(Ready()) && Distinct(Ready().inn.list)
  {
    StartSound(V5, 20, 20);
  }

  function Copy(serial: nat, content: Content): Message { Message(serial, 5, 2, WaitForPubrel, serial > 1, content) }

  lemma TwoStored(content: Content, net: Net)
    ensures var s1 := Next(Ready(), OnPublish(Publish(2, 5, false, content)), net);
            var s2 := Next(s1, OnPublish(Publish(2, 5, true, content)), net);
            && s2.state == Active && s2.protocol == V5
            && s2.inn == Inbound([Copy(1, content), Copy(2, content)], 2, 18, 20, 2) && s2.notes == [Stored(1), Stored(2)]
  {
    var s1 := Next(Ready(), OnPublish(Publish(2, 5, false, content)), net);
    assert s1.inn == Inbound([Copy(1, content)], 1, 19, 20, 1) && s1.notes == [Stored(1)];
  }

  lemma TwoDelivered(s: State, content: Content, net: Net)
    requires s.state == Active && s.protocol == V5 && forall n: nat :: net(n) == SUCCESS
    requires s.inn.list == [Copy(1, content), Copy(2, content)] && s.notes == [Stored(1), Stored(2)]
    ensures var t := Next(s, OnPubrel(2, Ack(5, 0)), net);
            var u := Next(t, OnPubrel(2, Ack(5, 0)), net);
            u.notes == [Stored(1), Stored(2), Delivered(Copy(1, content)), Delivered(Copy(2, content))]
  {
    FirstOfTwo(Copy(1, content), Copy(2, content));
    hide IndexOf, Without;
    var t := Next(s, OnPubrel(2, Ack(5, 0)), net);
    assert t.inn.list == [Copy(2, content)] && t.notes == [Stored(1), Stored(2), Delivered(Copy(1, content))];
  }

  /** Where identifiers are not distinct: a PUBLISH that the broker sends a second
      time before PUBREL is stored twice, and two PUBRELs deliver it twice. */
  lemma RepeatedPublishDeliveredTwice(content: Content, net: Net)
    requires forall n: nat :: net(n) == SUCCESS
    ensures var es := [OnPublish(Publish(2, 5, false, content)), OnPublish(Publish(2, 5, true, content)),
                       OnPubrel(2, Ack(5, 0)), OnPubrel(2, Ack(5, 0))];
            && Sound(Ready()) && Distinct(Ready().inn.list)
            && Run(Ready(), es, net).notes ==
               [Stored(1), Stored(2), Delivered(Copy(1, content)), Delivered(Copy(2, content))]
  {
    hide Next, Sound, Ready, Copy;
    var e1, e2, e3 := OnPublish(Publish(2, 5, false, content)), OnPublish(Publish(2, 5, true, content)), OnPubrel(2, Ack(5, 0));
    ReadySound();
    TwoStored(content, net);
    TwoDelivered(Next(Next(Ready(), e1, net), e2, net), content, net);
    RunFour(Ready(), e1, e2, e3, e3, net);
  }

  lemma FirstOfTwo(m1: Message, m2: Message)
    requires m1.mid == m2.mid
    ensures IndexOf([m1, m2], m1.mid) == Some(0) && Without([m1, m2], 0) == [m2] && IndexOf([m2], m1.mid) == Some(0)
  {
  }

  lemma RunFour(s: State, e1: Event, e2: Event, e3: Event, e4: Event, net: Net)
    ensures Run(s, [e1, e2, e3, e4], net) == Next(Next(Next(Next(s, e1, net), e2, net), e3, net), e4, net)
  {
    hide Next;
    var s1 := Next(s, e1, net);
    var s2 := Next(s1, e2, net);
    var s3 := Next(s2, e3, net);
    assert [e1, e2, e3, e4][1..] == [e2, e3, e4] && [e2, e3, e4][1..] == [e3, e4] && [e3, e4][1..] == [e4] && [e4][1..] == [];
    assert Run(s3, [e4], net) == Next(s3, e4, net);
    assert Run(s2, [e3, e4], net) == Run(s3, [e4], net);
    assert Run(s1, [e2, e3, e4], net) == Run(s2, [e3, e4], net);
  }
}
