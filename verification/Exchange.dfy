/**
 * What goes out in answer to what: the replies that sections 4.3.2 and 4.3.3 of
 * MQTT Version 5.0 ask for, and the order of messages (section 4.6).
 */
module Exchange {
  import opened Mqtt
  import opened Inflight
  import opened Delivery
  import opened SendWindow
  import opened History

  // ---------- replies ----------

  /** The one packet that an event calls for besides messages that become due. */
  function Reply(s: State, e: Event): Option<(byte, uint16)> {
    if s.state != Active then None
    else
      match e
      case OnPublish(Publish(1, mid, _, _)) => if Exhausted(s, 1) then None else Some((CMD_PUBACK, mid))
      case OnPublish(Publish(2, mid, _, _)) => if Exhausted(s, 2) then None else Some((CMD_PUBREC, mid))
      case OnPubrel(flags, Ack(mid, _)) =>
        if s.protocol == V31 || flags == 2 then Some((CMD_PUBCOMP, mid)) else None
      case OnPubrec(Ack(mid, reason)) =>
        if (s.protocol == V5 && reason >= 0x80) || Find(s.out.list, mid, 2) == WrongQos then None
        else Some((CMD_PUBREL + 2, mid))
      case _ => None
  }

  function AcksIn(w: seq<Sent>): seq<(byte, uint16)> {
    if w == [] then []
    else (if w[0].SentAck? then [(w[0].command, w[0].mid)] else []) + AcksIn(w[1..])
  }

  lemma {:induction false} NoAcks(w: seq<Sent>)
    requires forall i | 0 <= i < |w| :: w[i].SentPublish?
    ensures AcksIn(w) == []
  {
    if w != [] {
      assert forall i | 0 <= i < |w[1..]| :: w[1..][i] == w[i + 1];
      NoAcks(w[1..]);
    }
  }

  lemma {:induction false} OnlyPublishes(l: seq<Message>, quota: nat, wire: seq<Sent>, net: Net)
    ensures var w := ReleaseToInflight(l, quota, wire, net).wire;
            wire <= w && forall i | |wire| <= i < |w| :: w[i].SentPublish?
  {
    if l != [] && quota > 0 {
      if l[0].qos > 0 && l[0].state == Invalid {
        OnlyPublishes(l[1..], Decrement(quota), wire + [SentPublish(Release(l[0]), net(|wire|))], net);
      } else {
        OnlyPublishes(l[1..], quota, wire, net);
      }
    }
  }

  lemma ReleaseNoAcks(s: State, net: Net)
    ensures var t := ReleaseMore(s, net).s; s.wire <= t.wire && AcksIn(t.wire[|s.wire|..]) == []
  {
    OnlyPublishes(s.out.list, s.out.quota, s.wire, net);
    NoAcks(ReleaseMore(s, net).s.wire[|s.wire|..]);
  }

  lemma OneReply(w: seq<Sent>, command: byte, mid: uint16, rc: int)
    ensures var w' := w + [SentAck(command, mid, rc)]; w <= w' && AcksIn(w'[|w|..]) == [(command, mid)]
  {
    var w' := w + [SentAck(command, mid, rc)];
    assert w'[|w|..] == [SentAck(command, mid, rc)];
    assert [SentAck(command, mid, rc)][1..] == [];
  }

  lemma OnePublish(w: seq<Sent>, m: Message, rc: int)
    ensures var w' := w + [SentPublish(m, rc)]; w <= w' && AcksIn(w'[|w|..]) == []
  {
    var w' := w + [SentPublish(m, rc)];
    assert w'[|w|..] == [SentPublish(m, rc)];
    NoAcks(w'[|w|..]);
  }

  ghost predicate Answers(s: State, e: Event, t: State) {
    s.wire <= t.wire && AcksIn(t.wire[|s.wire|..]) == match Reply(s, e) case None => [] case Some(a) => [a]
  }

  lemma NothingSent(s: State, t: State)
    requires t.wire == s.wire
    ensures s.wire <= t.wire && AcksIn(t.wire[|s.wire|..]) == []
  {
  }

  /** Outside the retry that follows CONNACK, an event is answered with the reply
      that the standard asks for, once and with the right identifier, and with no
      other acknowledgement. */
  lemma AnsweredOnce(s: State, e: Event, net: Net)
    requires !e.OnConnack?
    ensures Answers(s, e, Next(s, e, net))
  {
    hide AcksIn, ReleaseMore, Find;
    var t := Next(s, e, net);
    if t.wire == s.wire { NothingSent(s, t); }
    match e
    case DoPublish(qos, content) =>
      var o := DrawMid(s.out);
      var m := Message(o.drawn, o.lastMid, qos, Invalid, false, content);
      OnePublish(s.wire, m, net(|s.wire|));
      ReleaseNoAcks(s.(out := o.(list := o.list + [m], queueLen := o.queueLen + 1), notes := s.notes + [Appended(m.serial)]), net);
    case OnPuback(a) => AckAnswered(s, 1, a, net);
    case OnPubcomp(a) => AckAnswered(s, 2, a, net);
    case OnPubrec(a) => PubRecAnswered(s, a, net);
    case OnPublish(Publish(qos, mid, _, _)) => OneReply(s.wire, if qos == 1 then CMD_PUBACK else CMD_PUBREC, mid, net(|s.wire|));
    case OnPubrel(_, Ack(mid, _)) => OneReply(s.wire, CMD_PUBCOMP, mid, net(|s.wire|));
    case _ =>
  }

  lemma AckAnswered(s: State, qos: nat, ack: Ack, net: Net)
    ensures var t := PubAckComp(s, qos, ack, net).s; s.wire <= t.wire && AcksIn(t.wire[|s.wire|..]) == []
  {
    hide AcksIn, ReleaseMore;
    NothingSent(s, s);
    if s.state == Active && ack.Ack? {
      var s' := CreditOut(s);
      match Find(s'.out.list, ack.mid, qos)
      case WrongQos =>
      case Missing => ReleaseNoAcks(s', net);
      case Found(k) => ReleaseNoAcks(Complete(s', k, false), net);
    }
  }

  lemma PubRecAnswered(s: State, ack: Ack, net: Net)
    ensures Answers(s, OnPubrec(ack), PubRec(s, ack, net).s)
  {
    hide AcksIn, ReleaseMore;
    NothingSent(s, s);
    if s.state == Active && ack.Ack? {
      if ack.reason < 0x80 || s.protocol != V5 {
        OneReply(s.wire, CMD_PUBREL + 2, ack.mid, net(|s.wire|));
      } else {
        match Find(s.out.list, ack.mid, 2)
        case Found(k) => ReleaseNoAcks(CreditOut(Complete(s, k, true)), net);
        case _ => ReleaseNoAcks(CreditOut(s), net);
      }
    }
  }

  // ---------- order ----------

  /** A walk sends the messages that come first behind those already out, one
      after the other, each in the state that it then has. */
  lemma {:induction false} SentInOrder(l: seq<Message>, quota: nat, wire: seq<Sent>, net: Net)
    requires Plain(l) && InOrder(l)
    ensures var w := ReleaseToInflight(l, quota, wire, net).wire;
            && wire <= w && |w| - |wire| <= |l| - Count(l)
            && forall i | |wire| <= i < |w| :: w[i] == SentPublish(Release(l[Count(l) + (i - |wire|)]), net(i))
  {
    hide ReleaseToInflight;
    WalkStep(l, quota, wire, net);
    if l != [] && quota > 0 {
      var head, rest := l[0], l[1..];
      assert head in l && forall m | m in rest :: m in l;
      var w := ReleaseToInflight(l, quota, wire, net).wire;
      if Released(head) {
        SentInOrder(rest, quota, wire, net);
      } else if net(|wire|) != SUCCESS {
        CountZeroInOrder(rest);
      } else {
        CountZeroInOrder(rest);
        var wire' := wire + [SentPublish(Release(head), net(|wire|))];
        SentInOrder(rest, Decrement(quota), wire', net);
        forall i | |wire| <= i < |w| ensures w[i] == SentPublish(Release(l[i - |wire|]), net(i)) {
          if i == |wire| { assert w[i] == wire'[i]; }
        }
      }
    }
  }

  /** What the first message comes to. */
  lemma WalkStep(l: seq<Message>, quota: nat, wire: seq<Sent>, net: Net)
    ensures var w := ReleaseToInflight(l, quota, wire, net);
            if l == [] || quota == 0 then w == Walk(l, quota, wire, SUCCESS)
            else if l[0].qos > 0 && l[0].state == Invalid then
              var wire' := wire + [SentPublish(Release(l[0]), net(|wire|))];
              if net(|wire|) != SUCCESS then w.wire == wire' else w.wire == ReleaseToInflight(l[1..], Decrement(quota), wire', net).wire
            else w.wire == ReleaseToInflight(l[1..], quota, wire, net).wire
  {
  }

  /** A QoS 1 or 2 message handed out. */
  predicate Handed(x: Sent) { x.SentPublish? && x.msg.qos > 0 }

  /** Since `from`, messages have been handed out in the order of publication, all
      of them later ones than `floor`; whatever still waits was published later
      than all of them. */
  ghost predicate Marching(s: State, from: nat, floor: nat) {
    var w, l := s.wire, s.out.list;
    && from <= |w| && floor <= s.out.drawn
    && (forall i | from <= i < |w| :: Handed(w[i]) ==> floor < w[i].msg.serial <= s.out.drawn)
    && (forall k | 0 <= k < |l| :: !Released(l[k]) ==> floor < l[k].serial)
    && (forall i, j {:trigger w[i], w[j]} | from <= i < j < |w| :: Handed(w[i]) && Handed(w[j]) ==> w[i].msg.serial < w[j].msg.serial)
    && (forall i, k {:trigger w[i], l[k]} | from <= i < |w| && 0 <= k < |l| ::
          Handed(w[i]) && !Released(l[k]) ==> w[i].msg.serial < l[k].serial)
  }

  /** As many messages are released as are sent. */
  lemma {:induction false} SentCount(l: seq<Message>, quota: nat, wire: seq<Sent>, net: Net)
    requires Plain(l)
    ensures var w := ReleaseToInflight(l, quota, wire, net); Count(w.list) == Count(l) + |w.wire| - |wire|
  {
    if l != [] && quota > 0 {
      var head, rest := l[0], l[1..];
      assert head in l && forall m | m in rest :: m in l;
      if Released(head) {
        SentCount(rest, quota, wire, net);
        CountCons(head, ReleaseToInflight(rest, quota, wire, net).list);
      } else {
        var wire' := wire + [SentPublish(Release(head), net(|wire|))];
        SentCount(rest, Decrement(quota), wire', net);
        CountCons(Release(head), rest);
        CountCons(Release(head), ReleaseToInflight(rest, Decrement(quota), wire', net).list);
      }
    }
  }

  /** The messages before and after a walk, by position: the same ones, the first
      `n` released before and the first `n'` after, those in between sent. */
  ghost predicate Walked(l: seq<Message>, l': seq<Message>, w: seq<Sent>, w': seq<Sent>, n: nat, n': nat) {
    && |l'| == |l| && w <= w' && n <= n' <= |l| && |w'| - |w| == n' - n
    && (forall k | 0 <= k < |l| :: (Released(l[k]) <==> k < n) && (Released(l'[k]) <==> k < n') && l'[k].serial == l[k].serial)
    && (forall i | |w| <= i < |w'| :: Handed(w'[i]) && w'[i].msg.serial == l[n + (i - |w|)].serial)
  }

  lemma WalkPositions(l: seq<Message>, quota: nat, wire: seq<Sent>, net: Net)
    requires Plain(l) && InOrder(l)
    ensures var w := ReleaseToInflight(l, quota, wire, net); Walked(l, w.list, wire, w.wire, Count(l), Count(w.list))
  {
    hide ReleaseToInflight, InOrder, Count, Plain, Handed;
    var w := ReleaseToInflight(l, quota, wire, net);
    SentCount(l, quota, wire, net);
    WalkReleases(l, quota, wire, net);
    WalkHands(l, quota, wire, net);
  }

  lemma WalkReleases(l: seq<Message>, quota: nat, wire: seq<Sent>, net: Net)
    requires Plain(l) && InOrder(l)
    ensures var l' := ReleaseToInflight(l, quota, wire, net).list;
            && |l'| == |l|
            && forall k | 0 <= k < |l| ::
                 (Released(l[k]) <==> k < Count(l)) && (Released(l'[k]) <==> k < Count(l')) && l'[k].serial == l[k].serial
  {
    hide ReleaseToInflight, InOrder, Count, Alike, Plain;
    var l' := ReleaseToInflight(l, quota, wire, net).list;
    ReleaseAlike(l, quota, wire, net);
    ReleaseWindow(l, quota, wire, net);
    InOrderMeans(l);
    InOrderMeans(l');
    AlikeEach(l, l');
    assert forall k | 0 <= k < |l| :: SameMessage(l[k], l'[k]);
  }

  lemma WalkHands(l: seq<Message>, quota: nat, wire: seq<Sent>, net: Net)
    requires Plain(l) && InOrder(l)
    ensures var w := ReleaseToInflight(l, quota, wire, net).wire;
            && wire <= w && |w| - |wire| <= |l| - Count(l)
            && forall i | |wire| <= i < |w| :: Handed(w[i]) && w[i].msg.serial == l[Count(l) + (i - |wire|)].serial
  {
    hide ReleaseToInflight, InOrder, Count;
    var w := ReleaseToInflight(l, quota, wire, net).wire;
    SentInOrder(l, quota, wire, net);
    forall i | |wire| <= i < |w| ensures Handed(w[i]) && w[i].msg.serial == l[Count(l) + (i - |wire|)].serial {
      assert l[Count(l) + (i - |wire|)] in l;
    }
  }

  lemma AlikeEach(l: seq<Message>, l': seq<Message>)
    requires Alike(l, l')
    ensures |l| == |l'| && forall k | 0 <= k < |l| :: SameMessage(l[k], l'[k])
  {
  }

  /** A walk keeps the order. */
  lemma WalkMarching(s: State, net: Net, from: nat, floor: nat)
    requires Plain(s.out.list) && InOrder(s.out.list) && Numbered(s.out.list, s.out.drawn)
    requires Marching(s, from, floor)
    ensures Marching(ReleaseMore(s, net).s, from, floor)
  {
    WalkPositions(s.out.list, s.out.quota, s.wire, net);
    var t := ReleaseMore(s, net).s;
    WalkedMarching(s, t, Count(s.out.list), Count(t.out.list), from, floor);
  }

  lemma WalkedMarching(s: State, t: State, n: nat, n': nat, from: nat, floor: nat)
    requires Numbered(s.out.list, s.out.drawn) && Marching(s, from, floor)
    requires Walked(s.out.list, t.out.list, s.wire, t.wire, n, n') && t.out.drawn == s.out.drawn
    ensures Marching(t, from, floor)
  {
    WalkedHands(s, t, n, n', from, floor);
    WalkedWaits(s, t, n, n', from, floor);
  }

  lemma WalkedHands(s: State, t: State, n: nat, n': nat, from: nat, floor: nat)
    requires Numbered(s.out.list, s.out.drawn) && Marching(s, from, floor)
    requires Walked(s.out.list, t.out.list, s.wire, t.wire, n, n') && t.out.drawn == s.out.drawn
    ensures var w, u := s.wire, t.wire;
            && from <= |u|
            && (forall i | from <= i < |u| :: Handed(u[i]) ==> floor < u[i].msg.serial <= t.out.drawn)
            && (forall i, j {:trigger u[i], u[j]} | from <= i < j < |u| :: Handed(u[i]) && Handed(u[j]) ==> u[i].msg.serial < u[j].msg.serial)
  {
    var l, w, u := s.out.list, s.wire, t.wire;
    assert forall i | from <= i < |w| :: u[i] == w[i];
    forall i, j | from <= i < j < |u| && Handed(u[i]) && Handed(u[j]) ensures u[i].msg.serial < u[j].msg.serial {
      if |w| <= j { assert u[j].msg.serial == l[n + (j - |w|)].serial; }
    }
  }

  lemma WalkedWaits(s: State, t: State, n: nat, n': nat, from: nat, floor: nat)
    requires Numbered(s.out.list, s.out.drawn) && Marching(s, from, floor)
    requires Walked(s.out.list, t.out.list, s.wire, t.wire, n, n') && t.out.drawn == s.out.drawn
    ensures var l', u := t.out.list, t.wire;
            && (forall k | 0 <= k < |l'| :: !Released(l'[k]) ==> floor < l'[k].serial)
            && (forall i, k {:trigger u[i], l'[k]} | from <= i < |u| && 0 <= k < |l'| ::
                  Handed(u[i]) && !Released(l'[k]) ==> u[i].msg.serial < l'[k].serial)
  {
    var l, w, u := s.out.list, s.wire, t.wire;
    assert forall i | from <= i < |w| :: u[i] == w[i];
    forall i, k | from <= i < |u| && 0 <= k < |l| && Handed(u[i]) && !Released(t.out.list[k])
      ensures u[i].msg.serial < t.out.list[k].serial
    {
      assert !Released(l[k]);
      if |w| <= i { assert u[i].msg.serial == l[n + (i - |w|)].serial; }
    }
  }

  /** Sending something else, and changing or removing messages so that no more
      of them wait, keeps the order. */
  lemma OtherMarching(s: State, t: State, from: nat, floor: nat)
    requires Marching(s, from, floor) && s.wire <= t.wire && s.out.drawn <= t.out.drawn
    requires forall i | |s.wire| <= i < |t.wire| :: !Handed(t.wire[i])
    requires forall k | 0 <= k < |t.out.list| && !Released(t.out.list[k]) ::
               exists j :: 0 <= j < |s.out.list| && t.out.list[k] == s.out.list[j]
    ensures Marching(t, from, floor)
  {
    var w, l := t.wire, t.out.list;
    assert forall i | 0 <= i < |s.wire| :: w[i] == s.wire[i];
    forall i, k | from <= i < |w| && 0 <= k < |l| && Handed(w[i]) && !Released(l[k]) ensures w[i].msg.serial < l[k].serial {
      var j :| 0 <= j < |s.out.list| && l[k] == s.out.list[j];
      assert s.wire[i] == w[i];
    }
    forall k | 0 <= k < |l| && !Released(l[k]) ensures floor < l[k].serial {
      var j :| 0 <= j < |s.out.list| && l[k] == s.out.list[j];
    }
  }

  lemma SameListMarching(s: State, t: State, from: nat, floor: nat)
    requires Marching(s, from, floor) && s.wire <= t.wire && s.out.drawn <= t.out.drawn && t.out.list == s.out.list
    requires forall i | |s.wire| <= i < |t.wire| :: !Handed(t.wire[i])
    ensures Marching(t, from, floor)
  {
    hide Marching, Handed;
    OtherMarching(s, t, from, floor);
  }

  lemma CompleteMarching(s: State, k: nat, refused: bool, from: nat, floor: nat)
    requires Marching(s, from, floor) && k < |s.out.list|
    ensures Marching(Complete(s, k, refused), from, floor)
  {
    hide Marching;
    var l := Without(s.out.list, k);
    forall i | 0 <= i < |l| ensures exists j :: 0 <= j < |s.out.list| && l[i] == s.out.list[j] {
      assert l[i] == s.out.list[if i < k then i else i + 1];
    }
    OtherMarching(s, Complete(s, k, refused), from, floor);
  }

  /** The walk that follows an acknowledgement, with or without a message gone. */
  lemma RoomMarching(s: State, found: Option<nat>, refused: bool, net: Net, from: nat, floor: nat)
    requires Plain(s.out.list) && InOrder(s.out.list) && OutSound(s.out) && Marching(s, from, floor)
    requires found.Some? ==> found.value < |s.out.list|
    ensures Marching(ReleaseMore(CreditOut(s), net).s, from, floor)
    ensures found.Some? ==> Marching(ReleaseMore(Complete(CreditOut(s), found.value, refused), net).s, from, floor)
    ensures found.Some? ==> Marching(ReleaseMore(CreditOut(Complete(s, found.value, refused)), net).s, from, floor)
  {
    hide Marching, ReleaseMore, InOrder, Numbered, AllPhased;
    var s' := CreditOut(s);
    SameListMarching(s, s', from, floor);
    WalkMarching(s', net, from, floor);
    if found.Some? {
      var k := found.value;
      CompleteMarching(s', k, refused, from, floor);
      CompleteMarching(s, k, refused, from, floor);
      SameListMarching(Complete(s, k, refused), CreditOut(Complete(s, k, refused)), from, floor);
      WithoutWindow(s.out.list, k);
      WithoutNumbered(s.out.list, k, s.out.drawn);
      WalkMarching(Complete(s', k, refused), net, from, floor);
      WalkMarching(CreditOut(Complete(s, k, refused)), net, from, floor);
    }
  }

  /** A message at the end of the list, behind everything handed out so far. */
  function Enqueued(s: State, m: Message): State {
    var o := DrawMid(s.out);
    s.(out := o.(list := o.list + [m], queueLen := o.queueLen + 1), notes := s.notes + [Appended(m.serial)])
  }

  lemma AppendMarching(s: State, m: Message, from: nat, floor: nat)
    requires Marching(s, from, floor) && m.serial == s.out.drawn + 1
    ensures Marching(Enqueued(s, m), from, floor)
  {
    hide NextMid;
  }

  lemma PublishMarching(s: State, qos: nat, content: Content, net: Net, from: nat, floor: nat)
    requires Window(s) && OutSound(s.out) && Marching(s, from, floor) && qos <= 2
    ensures Marching(PublishOut(s, qos, content, net).s, from, floor)
  {
    hide Marching, ReleaseMore, InOrder, Numbered, NextMid, MidOf;
    var o := DrawMid(s.out);
    var m := Message(o.drawn, o.lastMid, qos, Invalid, false, content);
    if qos == 0 {
      SameListMarching(s, PublishOut(s, 0, content, net).s, from, floor);
    } else {
      AppendMarching(s, m, from, floor);
      AppendWindow(s.out.list, m);
      MidOfNext(s.out.drawn);
      AppendNumbered(s.out.list, s.out.drawn, m);
      WalkMarching(Enqueued(s, m), net, from, floor);
    }
  }

  lemma AckMarching(s: State, qos: nat, ack: Ack, net: Net, from: nat, floor: nat)
    requires Window(s) && OutSound(s.out) && Marching(s, from, floor)
    ensures Marching(PubAckComp(s, qos, ack, net).s, from, floor)
  {
    hide Marching, ReleaseMore, Complete, OutSound;
    if s.state == Active {
      SameListMarching(s, CreditOut(s), from, floor);
      if ack.Ack? {
        match Find(s.out.list, ack.mid, qos)
        case Found(k) => RoomMarching(s, Some(k), false, net, from, floor);
        case _ => RoomMarching(s, None, false, net, from, floor);
      }
    }
  }

  lemma PubRecMarching(s: State, ack: Ack, net: Net, from: nat, floor: nat)
    requires Window(s) && OutSound(s.out) && Marching(s, from, floor)
    ensures Marching(PubRec(s, ack, net).s, from, floor)
  {
    hide Marching, ReleaseMore, Complete, OutSound;
    if s.state == Active && ack.Ack? {
      if ack.reason < 0x80 || s.protocol != V5 {
        OtherMarching(s, PubRec(s, ack, net).s, from, floor) by { ReceivedMarching(s, ack, net); }
      } else {
        match Find(s.out.list, ack.mid, 2)
        case Found(k) => RoomMarching(s, Some(k), true, net, from, floor);
        case _ => RoomMarching(s, None, true, net, from, floor);
      }
    }
  }

  lemma ReceivedMarching(s: State, ack: Ack, net: Net)
    requires s.state == Active && ack.Ack? && (ack.reason < 0x80 || s.protocol != V5)
    ensures var t := PubRec(s, ack, net).s;
            && s.wire <= t.wire && t.out.drawn == s.out.drawn
            && (forall i | |s.wire| <= i < |t.wire| :: !Handed(t.wire[i]))
            && (forall k | 0 <= k < |t.out.list| && !Released(t.out.list[k]) ::
                  exists j :: 0 <= j < |s.out.list| && t.out.list[k] == s.out.list[j])
  {
    var l, t := s.out.list, PubRec(s, ack, net).s;
    forall k | 0 <= k < |t.out.list| && !Released(t.out.list[k]) ensures exists j :: 0 <= j < |l| && t.out.list[k] == l[j] {
      assert t.out.list[k] == l[k];
    }
  }

  /** Events of one connection: no reset, and no retry after a CONNACK. */
  predicate SameConnection(e: Event) { !e.DoReset? && !e.OnConnack? }

  lemma MarchingStep(s: State, e: Event, net: Net, from: nat, floor: nat)
    requires Window(s) && OutSound(s.out) && Possible(e) && SameConnection(e) && Marching(s, from, floor)
    ensures Marching(Next(s, e, net), from, floor)
  {
    hide Marching, Window, OutSound, PublishOut, PubAckComp, PubRec;
    match e
    case DoPublish(qos, content) => PublishMarching(s, qos, content, net, from, floor);
    case OnPuback(a) => AckMarching(s, 1, a, net, from, floor);
    case OnPubcomp(a) => AckMarching(s, 2, a, net, from, floor);
    case OnPubrec(a) => PubRecMarching(s, a, net, from, floor);
    case _ => SameListMarching(s, Next(s, e, net), from, floor);
  }

  lemma {:induction false} MarchingRun(s: State, es: seq<Event>, net: Net, from: nat, floor: nat)
    requires Window(s) && OutSound(s.out) && OutConserved(s.out, s.notes) && FairRun(s, es, net)
    requires forall e | e in es :: SameConnection(e)
    requires Marching(s, from, floor)
    ensures Marching(Run(s, es, net), from, floor)
    decreases |es|
  {
    hide Marching, Window, OutSound, OutConserved, Next;
    if es != [] {
      assert es[0] in es && forall e | e in es[1..] :: e in es;
      MarchingStep(s, es[0], net, from, floor);
      WindowExact(s, es[0], net);
      OutStep(s, es[0], net);
      MarchingRun(Next(s, es[0], net), es[1..], net, from, floor);
    }
  }

  /** Within a connection, QoS 1 and 2 messages are handed out in the order in
      which they were published, all of them behind the last one handed out
      before. (The retry after CONNACK is the subject of Resume.) */
  lemma OutInOrder(s: State, es: seq<Event>, net: Net, floor: nat)
    requires Window(s) && OutSound(s.out) && OutConserved(s.out, s.notes) && FairRun(s, es, net)
    requires forall e | e in es :: SameConnection(e)
    requires floor <= s.out.drawn && forall k | 0 <= k < |s.out.list| && !Released(s.out.list[k]) :: floor < s.out.list[k].serial
    ensures var w, from := Run(s, es, net).wire, |s.wire|;
            && from <= |w|
            && (forall i | from <= i < |w| && Handed(w[i]) :: floor < w[i].msg.serial)
            && (forall i, j {:trigger w[i], w[j]} | from <= i < j < |w| && Handed(w[i]) && Handed(w[j]) ::
                  w[i].msg.serial < w[j].msg.serial)
  {
    assert Marching(s, |s.wire|, floor);
    MarchingRun(s, es, net, |s.wire|, floor);
  }
}
