/**
 * Whether anything is under way: with messages waiting for quota, some packet of
 * this connection has to be out whose acknowledgement will bring the quota back.
 */
module Progress {
  import opened Mqtt
  import opened Inflight
  import opened Delivery
  import opened SendWindow
  import opened FlowControl
  import opened History
  import opened Inputs
  import opened Resume

  /** The packet of a message: its PUBLISH, or PUBREL once PUBREC has come. */
  predicate Carries(x: Sent, m: Message) {
    match x
    case SentPublish(m', _) => m'.serial == m.serial
    case SentAck(command, mid, _) => command == CMD_PUBREL + 2 && mid == m.mid && HasPubrec(m)
  }

  /** It has been sent with success since `from`. */
  ghost predicate Under(m: Message, w: seq<Sent>, from: nat) {
    Released(m) && exists i :: from <= i < |w| && w[i].rc == SUCCESS && Carries(w[i], m)
  }

  /** How many messages of the list are under way. */
  ghost function UnderWay(l: seq<Message>, w: seq<Sent>, from: nat): nat {
    if l == [] then 0 else (if Under(l[0], w, from) then 1 else 0) + UnderWay(l[1..], w, from)
  }

  lemma WayCons(m: Message, l: seq<Message>, w: seq<Sent>, from: nat)
    ensures UnderWay([m] + l, w, from) == (if Under(m, w, from) then 1 else 0) + UnderWay(l, w, from)
  {
    hide Under;
    assert ([m] + l)[1..] == l;
  }

  lemma {:induction false} WayConcat(a: seq<Message>, b: seq<Message>, w: seq<Sent>, from: nat)
    ensures UnderWay(a + b, w, from) == UnderWay(a, w, from) + UnderWay(b, w, from)
  {
    hide Under;
    if a != [] {
      assert (a + b)[1..] == a[1..] + b;
      WayConcat(a[1..], b, w, from);
    } else {
      assert a + b == b;
    }
  }

  lemma {:induction false} WayPositive(l: seq<Message>, w: seq<Sent>, from: nat)
    ensures UnderWay(l, w, from) >= 1 <==> exists k :: 0 <= k < |l| && Under(l[k], w, from)
  {
    hide Under;
    if l != [] {
      WayPositive(l[1..], w, from);
      assert forall k | 1 <= k < |l| :: l[k] == l[1..][k - 1];
      if k :| 0 <= k < |l| && Under(l[k], w, from) {
        if k > 0 { assert Under(l[1..][k - 1], w, from); }
      }
    }
  }

  /** More packets. */
  lemma UnderMore(m: Message, w: seq<Sent>, w': seq<Sent>, from: nat)
    requires w <= w' && Under(m, w, from)
    ensures Under(m, w', from)
  {
    var i :| from <= i < |w| && w[i].rc == SUCCESS && Carries(w[i], m);
    assert w'[i] == w[i];
  }

  lemma {:induction false} WayMore(l: seq<Message>, w: seq<Sent>, w': seq<Sent>, from: nat)
    requires w <= w'
    ensures UnderWay(l, w, from) <= UnderWay(l, w', from)
  {
    hide Under;
    if l != [] {
      if Under(l[0], w, from) { UnderMore(l[0], w, w', from); }
      WayMore(l[1..], w, w', from);
    }
  }

  /** One message less, or another one in its place. */
  lemma WaySplit(l: seq<Message>, k: nat, m: Message, w: seq<Sent>, from: nat)
    requires k < |l|
    ensures UnderWay(Without(l, k), w, from) + (if Under(l[k], w, from) then 1 else 0) == UnderWay(l, w, from)
    ensures (Under(l[k], w, from) ==> Under(m, w, from)) ==> UnderWay(l[k := m], w, from) >= UnderWay(l, w, from)
  {
    hide Under, UnderWay;
    SplitAt(l, k);
    SplitAt(l[k := m], k);
    assert l[k := m][..k] == l[..k] && l[k := m][k + 1..] == l[k + 1..];
    WayConcat(l[..k], [l[k]] + l[k + 1..], w, from);
    WayConcat(l[..k], [m] + l[k + 1..], w, from);
    WayCons(l[k], l[k + 1..], w, from);
    WayCons(m, l[k + 1..], w, from);
    WayConcat(l[..k], l[k + 1..], w, from);
  }

  /** Sends succeed from the n-th on. */
  ghost predicate GoodFrom(net: Net, n: nat) { forall k | k >= n :: net(k) == SUCCESS }

  lemma JustSent(m: Message, wire: seq<Sent>, w: seq<Sent>, from: nat)
    requires wire + [SentPublish(m, SUCCESS)] <= w && Released(m) && from <= |wire|
    ensures Under(m, w, from)
  {
    assert (wire + [SentPublish(m, SUCCESS)])[|wire|] == SentPublish(m, SUCCESS);
    assert w[|wire|] == SentPublish(m, SUCCESS);
  }

  /** A walk charges the quota only for what gets under way. */
  lemma {:induction false} WalkWay(l: seq<Message>, quota: nat, wire: seq<Sent>, net: Net, from: nat)
    requires Plain(l) && from <= |wire| && GoodFrom(net, |wire|)
    ensures var w := ReleaseToInflight(l, quota, wire, net);
            && w.rc == SUCCESS && wire <= w.wire
            && w.quota + UnderWay(w.list, w.wire, from) >= quota + UnderWay(l, wire, from)
  {
    hide Under, UnderWay;
    var w := ReleaseToInflight(l, quota, wire, net);
    if l != [] && quota > 0 {
      var head, rest := l[0], l[1..];
      assert l == [head] + rest && head in l && forall m | m in rest :: m in l;
      WayCons(head, rest, wire, from);
      if Released(head) {
        WalkWay(rest, quota, wire, net, from);
        WayCons(head, ReleaseToInflight(rest, quota, wire, net).list, w.wire, from);
        if Under(head, wire, from) { UnderMore(head, wire, w.wire, from); }
      } else {
        var m := Release(head);
        var wire' := wire + [SentPublish(m, SUCCESS)];
        WalkWay(rest, Decrement(quota), wire', net, from);
        WayCons(m, ReleaseToInflight(rest, Decrement(quota), wire', net).list, w.wire, from);
        JustSent(m, wire, w.wire, from);
        WayMore(rest, wire, wire', from);
        NotUnder(head, wire, from);
      }
    }
  }

  lemma NotUnder(m: Message, w: seq<Sent>, from: nat)
    requires !Released(m)
    ensures !Under(m, w, from)
  {
  }

  /** Missing quota is accounted for by messages under way. */
  ghost predicate Backed(s: State, from: nat) {
    && 1 <= s.out.maximum && s.out.quota <= s.out.maximum
    && Plain(s.out.list) && from <= |s.wire|
    && s.out.quota + UnderWay(s.out.list, s.wire, from) >= s.out.maximum
  }

  /** And with messages waiting, some message is under way. */
  ghost predicate Flowing(s: State, from: nat) {
    Backed(s, from) && (Count(s.out.list) < |s.out.list| ==> UnderWay(s.out.list, s.wire, from) >= 1)
  }

  lemma WalkFlowing(s: State, net: Net, from: nat)
    requires Backed(s, from) && GoodFrom(net, |s.wire|)
    ensures var t := ReleaseMore(s, net).s; Flowing(t, from) && s.wire <= t.wire
  {
    hide UnderWay, ReleaseToInflight;
    WalkWay(s.out.list, s.out.quota, s.wire, net, from);
    ReleaseWindow(s.out.list, s.out.quota, s.wire, net);
    ReleasePlain(s.out.list, s.out.quota, s.wire, net);
  }

  lemma CreditBacked(s: State, from: nat)
    requires Backed(s, from)
    ensures Backed(CreditOut(s), from)
  {
    hide UnderWay;
  }

  /** A message gone, and its unit of quota back. */
  lemma CompleteBacked(s: State, k: nat, refused: bool, from: nat)
    requires Backed(s, from) && k < |s.out.list|
    ensures Backed(CreditOut(Complete(s, k, refused)), from)
    ensures Backed(Complete(CreditOut(s), k, refused), from)
  {
    hide UnderWay, Without;
    WaySplit(s.out.list, k, s.out.list[k], s.wire, from);
    WithoutWindow(s.out.list, k);
  }

  /** Other packets, and the same messages. */
  lemma SameFlowing(s: State, t: State, from: nat)
    requires Flowing(s, from) && s.wire <= t.wire
    requires t.out.list == s.out.list && t.out.maximum == s.out.maximum && s.out.quota <= t.out.quota <= t.out.maximum
    ensures Flowing(t, from)
  {
    WayMore(s.out.list, s.wire, t.wire, from);
    hide UnderWay;
  }

  lemma PublishFlowing(s: State, qos: nat, content: Content, net: Net, from: nat)
    requires Flowing(s, from) && qos <= 2 && GoodFrom(net, |s.wire|)
    ensures var t := PublishOut(s, qos, content, net).s; Flowing(t, from) && s.wire <= t.wire
  {
    hide UnderWay, ReleaseMore, Count;
    var o := DrawMid(s.out);
    var m := Message(o.drawn, o.lastMid, qos, Invalid, false, content);
    if qos == 0 {
      SameFlowing(s, PublishOut(s, qos, content, net).s, from);
    } else {
      WayConcat(s.out.list, [m], s.wire, from);
      WalkFlowing(s.(out := o.(list := o.list + [m], queueLen := o.queueLen + 1), notes := s.notes + [Appended(m.serial)]), net, from);
    }
  }

  lemma AckFlowing(s: State, qos: nat, ack: Ack, net: Net, from: nat)
    requires Flowing(s, from) && GoodFrom(net, |s.wire|)
    ensures var t := PubAckComp(s, qos, ack, net).s; Flowing(t, from) && s.wire <= t.wire
  {
    hide UnderWay, ReleaseMore, Count, Without;
    if s.state == Active {
      var s' := CreditOut(s);
      CreditBacked(s, from);
      SameFlowing(s, s', from);
      if ack.Ack? {
        match Find(s'.out.list, ack.mid, qos)
        case WrongQos =>
        case Missing => WalkFlowing(s', net, from);
        case Found(k) =>
          CompleteBacked(s, k, false, from);
          WalkFlowing(Complete(s', k, false), net, from);
      }
    }
  }

  /** PUBREC: the message stays under way if it was. */
  lemma ReceivedFlowing(s: State, k: nat, mid: uint16, net: Net, from: nat)
    requires Flowing(s, from) && k < |s.out.list|
    ensures var m := s.out.list[k].(state := WaitForPubcomp);
            var t := SendAck(s.(out := s.out.(list := s.out.list[k := m])), CMD_PUBREL + 2, mid, net).s;
            Flowing(t, from) && s.wire <= t.wire
  {
    var l := s.out.list;
    var m := l[k].(state := WaitForPubcomp);
    var w := SendAck(s, CMD_PUBREL + 2, mid, net).s.wire;
    assert Under(l[k], s.wire, from) ==> Under(m, s.wire, from);
    hide UnderWay, Under, Count;
    WaySplit(l, k, m, s.wire, from);
    WayMore(l[k := m], s.wire, w, from);
    ReplaceCount(l, k, m);
  }

  lemma PubRecFlowing(s: State, ack: Ack, net: Net, from: nat)
    requires Flowing(s, from) && GoodFrom(net, |s.wire|)
    ensures var t := PubRec(s, ack, net).s; Flowing(t, from) && s.wire <= t.wire
  {
    hide Flowing, Backed, ReleaseMore, Without;
    assert Backed(s, from) by { FlowingBacked(s, from); }
    if s.state == Active && ack.Ack? {
      if ack.reason < 0x80 || s.protocol != V5 {
        match Find(s.out.list, ack.mid, 2)
        case WrongQos =>
        case Missing => AckSentFlowing(s, s.inn, s.notes, CMD_PUBREL + 2, ack.mid, net, from);
        case Found(k) => ReceivedFlowing(s, k, ack.mid, net, from);
      } else {
        match Find(s.out.list, ack.mid, 2)
        case Found(k) =>
          CompleteBacked(s, k, true, from);
          WalkFlowing(CreditOut(Complete(s, k, true)), net, from);
        case _ =>
          CreditBacked(s, from);
          WalkFlowing(CreditOut(s), net, from);
      }
    }
  }

  lemma FlowingBacked(s: State, from: nat)
    requires Flowing(s, from)
    ensures Backed(s, from)
  {
  }

  /** An acknowledgement sent, and something done on the inbound side. */
  lemma AckSentFlowing(s: State, inn: Inbound, notes: seq<Note>, command: byte, mid: uint16, net: Net, from: nat)
    requires Flowing(s, from)
    ensures Flowing(s.(inn := inn, notes := notes), from)
    ensures var t := SendAck(s, command, mid, net).s.(inn := inn, notes := notes); Flowing(t, from) && s.wire <= t.wire
  {
    assert Flowing(s, from) ==> s.out.quota <= s.out.maximum;
    hide Flowing;
    SameFlowing(s, s.(inn := inn, notes := notes), from);
    SameFlowing(s, SendAck(s, command, mid, net).s.(inn := inn, notes := notes), from);
  }

  lemma InboundFlowing(s: State, e: Event, net: Net, from: nat)
    requires Flowing(s, from) && (e.OnPublish? || e.OnPubrel?)
    ensures var t := Next(s, e, net); Flowing(t, from) && s.wire <= t.wire
  {
    hide Flowing, Exhausted, Find, Without;
    var t := Next(s, e, net);
    match e
    case OnPublish(Publish(qos, mid, _, _)) =>
      AckSentFlowing(s, t.inn, t.notes, if qos == 1 then CMD_PUBACK else CMD_PUBREC, mid, net, from);
    case OnPubrel(_, Ack(mid, _)) => AckSentFlowing(s, t.inn, t.notes, CMD_PUBCOMP, mid, net, from);
    case _ =>
  }

  /** Whatever happens within a connection while sends succeed. */
  lemma FlowingStep(s: State, e: Event, net: Net, from: nat)
    requires Flowing(s, from) && Possible(e) && WithinConnection(e) && GoodFrom(net, |s.wire|)
    ensures var t := Next(s, e, net); Flowing(t, from) && s.wire <= t.wire
  {
    assert s.out.quota <= s.out.maximum;
    hide Flowing, GoodFrom, PublishOut, PubAckComp, PubRec, PublishIn, PubRel;
    match e
    case DoPublish(qos, content) => PublishFlowing(s, qos, content, net, from);
    case OnPuback(a) => AckFlowing(s, 1, a, net, from);
    case OnPubcomp(a) => AckFlowing(s, 2, a, net, from);
    case OnPubrec(a) => PubRecFlowing(s, a, net, from);
    case OnPublish(_) => InboundFlowing(s, e, net, from);
    case OnPubrel(_, _) => InboundFlowing(s, e, net, from);
    case _ => SameFlowing(s, Next(s, e, net), from);
  }

  lemma {:induction false} FlowingRun(s: State, es: seq<Event>, net: Net, from: nat)
    requires Flowing(s, from) && PossibleRun(es) && (forall e | e in es :: WithinConnection(e)) && GoodFrom(net, |s.wire|)
    ensures Flowing(Run(s, es, net), from)
    decreases |es|
  {
    hide Flowing, Next;
    if es != [] {
      assert es[0] in es && forall e | e in es[1..] :: e in es;
      FlowingStep(s, es[0], net, from);
      FlowingRun(Next(s, es[0], net), es[1..], net, from);
    }
  }
  // ---------- a new connection ----------

  /** Some packet of the retry was taken by the network. */
  ghost predicate SomeResent(from: nat, n: nat, net: Net) { exists i :: from <= i < from + n && net(i) == SUCCESS }

  /** The list and the packets behind a reset and a CONNACK. */
  ghost predicate Resumed(l: seq<Message>, l': seq<Message>, w: seq<Sent>, from: nat, n: nat, net: Net) {
    && |l'| == |l| && n <= |l| && |w| == from + n
    && (forall i | 0 <= i < n :: Resent(l[i], w[from + i], net(from + i)))
    && (forall i | 0 <= i < |l| :: Released(l'[i]) <==> i < n)
    && (forall i | 0 <= i < |l| :: l'[i].serial == l[i].serial && l'[i].mid == l[i].mid)
    && (forall i | 0 <= i < n && HasPubrec(l[i]) :: HasPubrec(l'[i]))
  }

  lemma ResumedUnder(l: seq<Message>, l': seq<Message>, w: seq<Sent>, from: nat, n: nat, net: Net)
    requires Resumed(l, l', w, from, n, net) && SomeResent(from, n, net)
    ensures UnderWay(l', w, from) >= 1
  {
    hide UnderWay, Resent;
    var i :| from <= i < from + n && net(i) == SUCCESS;
    var k := i - from;
    assert Resent(l[k], w[from + k], net(from + k));
    ResentCarries(l[k], l'[k], w[i], net(i));
    assert Under(l'[k], w, from);
    WayPositive(l', w, from);
  }

  lemma UnderResumed(l: seq<Message>, l': seq<Message>, w: seq<Sent>, from: nat, n: nat, net: Net)
    requires Resumed(l, l', w, from, n, net) && UnderWay(l', w, from) >= 1
    ensures SomeResent(from, n, net)
  {
    hide UnderWay, Resent;
    WayPositive(l', w, from);
    var k :| 0 <= k < |l'| && Under(l'[k], w, from);
    var i :| from <= i < |w| && w[i].rc == SUCCESS && Carries(w[i], l'[k]);
    assert Resent(l[i - from], w[from + (i - from)], net(from + (i - from)));
    ResentResult(l[i - from], w[i], net(i));
  }

  lemma ResentResult(m: Message, x: Sent, rc: int)
    requires Resent(m, x, rc)
    ensures x.rc == rc
  {
  }

  /** The retry sends one packet for each of the first messages, and only these are
      under way. */
  lemma ResentWay(s: State, max: Option<uint16>, net: Net)
    requires Window(s) && AllPhased(s.out.list)
    ensures var t := Connack(ReconnectReset(s), 0, max, net).s;
            UnderWay(t.out.list, t.wire, |s.wire|) >= 1 <==> SomeResent(|s.wire|, Min(|s.out.list|, s.out.maximum), net)
  {
    hide Connack, ReconnectReset, UnderWay, AllPhased, Window, Resent, SomeResent;
    var t, l, n, from := Connack(ReconnectReset(s), 0, max, net).s, s.out.list, Min(|s.out.list|, s.out.maximum), |s.wire|;
    ResendInOrder(s, max, net);
    ResentSame(s, max, net);
    assert Resumed(l, t.out.list, t.wire, from, n, net);
    if SomeResent(from, n, net) { ResumedUnder(l, t.out.list, t.wire, from, n, net); }
    if UnderWay(t.out.list, t.wire, from) >= 1 { UnderResumed(l, t.out.list, t.wire, from, n, net); }
  }

  lemma ResentCarries(m: Message, m': Message, x: Sent, rc: int)
    requires Resent(m, x, rc) && m'.serial == m.serial && m'.mid == m.mid && (HasPubrec(m) ==> HasPubrec(m'))
    ensures Carries(x, m') && x.rc == rc
  {
  }

  lemma ResentSame(s: State, max: Option<uint16>, net: Net)
    requires Window(s) && AllPhased(s.out.list)
    ensures var l, t := s.out.list, Connack(ReconnectReset(s), 0, max, net).s;
            && |t.out.list| == |l| && Plain(t.out.list) && Count(t.out.list) == Min(|l|, s.out.maximum)
            && (forall i | 0 <= i < |l| :: t.out.list[i].serial == l[i].serial && t.out.list[i].mid == l[i].mid)
            && (forall i | 0 <= i < Min(|l|, s.out.maximum) && HasPubrec(l[i]) :: HasPubrec(t.out.list[i]))
  {
    hide ResetOut, ResetIn, Retry, InOrder, Count, AllPhased;
    var l, r := s.out.list, ResetOut(s.out.list, s.out.maximum).list;
    InOrderMeans(l);
    ResetKeeps(s);
    ResetAlike(l, s.out.maximum);
    ResetReady(l, s.out.maximum);
    RetrySame(r, s.wire, net);
    SameStates(r, Retry(r, s.wire, net).list);
    PubrecsKept(l, s.out.maximum);
    assert forall i | 0 <= i < |l| :: SameMessage(l[i], r[i]);
  }

  lemma PubrecsKept(l: seq<Message>, quota: nat)
    requires AllPhased(l) && forall i | 0 <= i < Min(|l|, quota) :: Released(l[i])
    ensures var r := ResetOut(l, quota).list;
            |r| == |l| && forall i | 0 <= i < Min(|l|, quota) && HasPubrec(l[i]) :: HasPubrec(r[i])
  {
    hide ResetOut;
    ResetReady(l, quota);
    forall i | 0 <= i < Min(|l|, quota) && HasPubrec(l[i]) ensures ResetState(l[i]).state == ResendPubrel { PhaseKept(l[i]); }
  }

  /** After a reset and an accepted CONNACK: quota is backed, and something is under
      way if messages wait, exactly if no message has to wait or the network took
      one of the packets of the retry. */
  lemma ResumedExact(s: State, max: Option<uint16>, net: Net)
    requires Window(s) && AllPhased(s.out.list) && max != Some(0)
    ensures var t := Connack(ReconnectReset(s), 0, max, net).s;
            Flowing(t, |s.wire|) <==>
            |s.out.list| <= s.out.maximum || SomeResent(|s.wire|, Min(|s.out.list|, s.out.maximum), net)
  {
    hide Retry, ResetOut, ResetIn, UnderWay, Count, InOrder, SomeResent, AllPhased, Resent;
    ResentWay(s, max, net);
    ResentSame(s, max, net);
    ResendInOrder(s, max, net);
  }

  /** Progress. Unless the network takes none of the packets of the retry while
      messages wait, something is under way in every later state of the connection
      in which messages wait, as long as sends succeed: whatever the broker sends
      and the application does. */
  lemma ConnectionFlows(s: State, max: Option<uint16>, es: seq<Event>, net: Net)
    requires Window(s) && AllPhased(s.out.list) && max != Some(0)
    requires |s.out.list| <= s.out.maximum || SomeResent(|s.wire|, Min(|s.out.list|, s.out.maximum), net)
    requires PossibleRun(es) && (forall e | e in es :: WithinConnection(e))
    requires GoodFrom(net, |s.wire| + Min(|s.out.list|, s.out.maximum))
    ensures var u := Run(Connack(ReconnectReset(s), 0, max, net).s, es, net);
            Flowing(u, |s.wire|)
  {
    hide Connack, ReconnectReset, Flowing, Run, Window, AllPhased;
    ResumedExact(s, max, net);
    ResendInOrder(s, max, net);
    FlowingRun(Connack(ReconnectReset(s), 0, max, net).s, es, net, |s.wire|);
  }

  // ---------- an input ----------

  /** Nothing under way: a message is out, another waits; the connection is lost, and
      in the next one the network refuses the first message. The quota is there, no
      acknowledgement is due, and the second message waits all the same. */
  lemma RefusedRetryStalls(content: Content, net: Net)
    requires net(0) == SUCCESS && net(1) != SUCCESS
    ensures var s := Run(Start(V5, 1, 20), CONNECTING + [DoPublish(1, content)] + [DoPublish(2, content)], net);
            var u := Run(Start(V5, 1, 20),
                         CONNECTING + [DoPublish(1, content)] + [DoPublish(2, content)] + [DoReset] + [OnConnack(0, None)], net);
            && Window(u) && u.out.quota == 1 && Count(u.out.list) < |u.out.list|
            && |s.wire| == 1 && UnderWay(u.out.list, u.wire, 1) == 0
  {
    hide Start, Run, Next, Window, UnderWay, Flowing, AllPhased, SomeResent;
    var s0, es := Start(V5, 1, 20), CONNECTING + [DoPublish(1, content)] + [DoPublish(2, content)];
    OneOutReached(V5, 1, content, net);
    RunMore(s0, CONNECTING + [DoPublish(1, content)], DoPublish(2, content), net);
    RunMore(s0, es, DoReset, net);
    RunMore(s0, es + [DoReset], OnConnack(0, None), net);
    OneWaiting(content, net);
  }

  lemma OneWaiting(content: Content, net: Net)
    requires net(1) != SUCCESS
    ensures var s := Next(OneOut(V5, 1, content), DoPublish(2, content), net);
            var u := Next(Next(s, DoReset, net), OnConnack(0, None), net);
            && Window(u) && u.out.quota == 1 && Count(u.out.list) < |u.out.list|
            && |s.wire| == 1 && UnderWay(u.out.list, u.wire, 1) == 0
  {
    hide Connack, ReconnectReset, Window, Count, UnderWay, PublishOut, AllPhased;
    var s := Next(OneOut(V5, 1, content), DoPublish(2, content), net);
    FullAtOne(content, net);
    ResetKeeps(s);
    ConnackExact(ReconnectReset(s), 0, None, net);
    ResentWay(s, None, net);
    ResentSame(s, None, net);
    QuotaAnew(s, net);
  }

  lemma QuotaAnew(s: State, net: Net)
    ensures Connack(ReconnectReset(s), 0, None, net).s.out.quota == s.out.maximum
  {
  }

  lemma FullAtOne(content: Content, net: Net)
    ensures var s := Next(OneOut(V5, 1, content), DoPublish(2, content), net);
            Window(s) && AllPhased(s.out.list) && |s.out.list| == 2 && s.out.maximum == 1 && |s.wire| == 1
  {
    hide PublishOut;
    WaitsBehind(OneOut(V5, 1, content), 2, content, net);
    var l := [First(1, content), Out(2, 2, 2, Invalid, content)];
    assert [First(1, content)] + [l[1]] == l && [l[1]] + [] == [l[1]];
    assert Next(OneOut(V5, 1, content), DoPublish(2, content), net).out.list == l;
    CountCons(First(1, content), [l[1]]);
    CountCons(l[1], []);
    hide Count, InOrder;
  }
}
