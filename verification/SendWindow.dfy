/**
 * The send window: which outbound messages have been handed out, and what the
 * send quota says about them.
 */
module SendWindow {
  import opened Mqtt
  import opened Inflight
  import opened Delivery

  /** Handed to the network at least once since it was last taken back. */
  predicate Released(m: Message) { m.state != Invalid }

  function Count(l: seq<Message>): (n: nat)
    ensures n <= |l|
  {
    if l == [] then 0 else (if Released(l[0]) then 1 else 0) + Count(l[1..])
  }

  predicate Plain(l: seq<Message>) { forall m | m in l :: m.qos == 1 || m.qos == 2 }

  /** The released messages come first. */
  predicate InOrder(l: seq<Message>) {
    l == [] || if Released(l[0]) then InOrder(l[1..]) else Count(l) == 0
  }

  lemma {:induction false} InOrderMeans(l: seq<Message>)
    ensures InOrder(l) <==> forall i | 0 <= i < |l| :: Released(l[i]) <==> i < Count(l)
  {
    if l != [] {
      InOrderMeans(l[1..]);
      assert forall i | 1 <= i < |l| :: l[i] == l[1..][i - 1];
      if !Released(l[0]) { NoneReleased(l); }
      if InOrder(l) && Released(l[0]) {
        forall i | 1 <= i < |l| ensures Released(l[i]) <==> i < Count(l) { assert l[i] == l[1..][i - 1]; }
      }
      if forall i | 0 <= i < |l| :: Released(l[i]) <==> i < Count(l) {
        if Released(l[0]) {
          forall i | 0 <= i < |l[1..]| ensures Released(l[1..][i]) <==> i < Count(l[1..]) { assert l[1..][i] == l[i + 1]; }
        }
      }
    }
  }

  lemma {:induction false} NoneReleased(l: seq<Message>)
    ensures Count(l) == 0 <==> forall i | 0 <= i < |l| :: !Released(l[i])
  {
    if l != [] {
      NoneReleased(l[1..]);
      assert forall i | 1 <= i < |l| :: l[i] == l[1..][i - 1];
      if forall i | 0 <= i < |l| :: !Released(l[i]) {
        forall i | 0 <= i < |l[1..]| ensures !Released(l[1..][i]) { assert l[1..][i] == l[i + 1]; }
      }
    }
  }

  lemma {:induction false} CountConcat(a: seq<Message>, b: seq<Message>)
    ensures Count(a + b) == Count(a) + Count(b)
  {
    if a != [] {
      assert (a + b)[1..] == a[1..] + b;
      CountConcat(a[1..], b);
    } else {
      assert a + b == b;
    }
  }

  lemma CountCons(m: Message, l: seq<Message>)
    ensures Count([m] + l) == (if Released(m) then 1 else 0) + Count(l)
    ensures InOrder([m] + l) == (if Released(m) then InOrder(l) else Count(l) == 0)
  {
  }

  lemma CountSplit(l: seq<Message>, k: nat)
    requires k < |l|
    ensures Count(l) == Count(l[..k]) + (if Released(l[k]) then 1 else 0) + Count(l[k + 1..])
  {
    hide Count;
    SplitAt(l, k);
    CountConcat(l[..k], [l[k]] + l[k + 1..]);
    CountCons(l[k], l[k + 1..]);
  }

  /** Taking a message out. */
  lemma {:induction false} WithoutWindow(l: seq<Message>, k: nat)
    requires k < |l|
    ensures Count(Without(l, k)) == Count(l) - (if Released(l[k]) then 1 else 0)
    ensures InOrder(l) ==> InOrder(Without(l, k))
    ensures Plain(l) ==> Plain(Without(l, k))
    decreases k
  {
    CountSplit(l, k);
    CountConcat(l[..k], l[k + 1..]);
    if k == 0 {
      assert Without(l, k) == l[1..];
      if InOrder(l) && !Released(l[0]) { NoneReleased(l); NoneInOrder(l[1..]); }
    } else {
      WithoutWindow(l[1..], k - 1);
      assert Without(l, k) == [l[0]] + Without(l[1..], k - 1);
    }
  }

  lemma {:induction false} NoneInOrder(l: seq<Message>)
    requires forall i | 0 <= i < |l| :: !Released(l[i])
    ensures InOrder(l)
  {
    NoneReleased(l);
  }

  /** A message appended at the end, not yet released. */
  lemma {:induction false} AppendWindow(l: seq<Message>, m: Message)
    requires !Released(m)
    ensures Count(l + [m]) == Count(l)
    ensures InOrder(l) ==> InOrder(l + [m])
  {
    CountConcat(l, [m]);
    if l != [] {
      AppendWindow(l[1..], m);
      assert (l + [m])[1..] == l[1..] + [m];
    }
  }

  lemma CountZeroInOrder(l: seq<Message>)
    requires Count(l) == 0
    ensures InOrder(l)
  {
  }

  /** Walking down the list sends what the quota allows. Every message handed
      out is charged, except one whose send failed; the walk stops only for lack
      of quota, of messages, or because of that failure. */
  lemma {:induction false} ReleaseWindow(l: seq<Message>, quota: nat, wire: seq<Sent>, net: Net)
    requires Plain(l)
    ensures var w := ReleaseToInflight(l, quota, wire, net);
            && |w.list| == |l| && w.quota <= quota
            && Count(w.list) + w.quota == Count(l) + quota + (if w.rc == SUCCESS then 0 else 1)
            && (w.rc == SUCCESS ==> w.quota == 0 || Count(w.list) == |l|)
            && (quota > 0 && Count(l) < |l| ==> Count(w.list) > Count(l))
            && (quota == 0 || Count(l) == |l| ==> w.list == l && w.rc == SUCCESS)
            && (InOrder(l) ==> InOrder(w.list))
  {
    if l != [] && quota > 0 {
      var head, rest := l[0], l[1..];
      assert l == [head] + rest && head in l && forall m | m in rest :: m in l;
      CountCons(head, rest);
      if InOrder(l) && !Released(head) { CountZeroInOrder(rest); }
      var m := if Released(head) then head else Release(head);
      var rc := net(|wire|);
      if head.state == Invalid && rc != SUCCESS {
        CountCons(m, rest);
      } else {
        var quota', wire' := if Released(head) then quota else quota - 1, if Released(head) then wire else wire + [SentPublish(m, rc)];
        ReleaseWindow(rest, quota', wire', net);
        CountCons(m, ReleaseToInflight(rest, quota', wire', net).list);
      }
    }
  }

  lemma {:induction false} ReleasePlain(l: seq<Message>, quota: nat, wire: seq<Sent>, net: Net)
    requires Plain(l)
    ensures Plain(ReleaseToInflight(l, quota, wire, net).list)
  {
    if l != [] && quota > 0 {
      assert l[0] in l && forall m | m in l[1..] :: m in l;
      if l[0].state == Invalid {
        var m, rc := Release(l[0]), net(|wire|);
        ReleasePlain(l[1..], quota - 1, wire + [SentPublish(m, rc)], net);
      } else {
        ReleasePlain(l[1..], quota, wire, net);
      }
    }
  }

  // ---------- reconnection ----------

  function Min(a: nat, b: nat): nat { if a < b then a else b }

  /** A reset takes back everything beyond the quota, and keeps the phase of the
      rest. */
  lemma {:induction false} ResetWindow(l: seq<Message>, quota: nat)
    requires Plain(l)
    requires forall i | 0 <= i < Min(|l|, quota) :: Released(l[i])
    ensures var w := ResetOut(l, quota);
            && |w.list| == |l| && Plain(w.list) && InOrder(w.list)
            && Count(w.list) == Min(|l|, quota)
            && w.quota == quota - Min(|l|, quota)
  {
    if l != [] {
      var head, rest := l[0], l[1..];
      assert head in l && forall m | m in rest :: m in l;
      assert forall i | 0 <= i < |rest| :: rest[i] == l[i + 1];
      var quota' := if quota != 0 then quota - 1 else 0;
      ResetWindow(rest, quota');
      var m := if quota != 0 then ResetState(head) else head.(state := Invalid);
      CountCons(m, ResetOut(rest, quota').list);
    }
  }

  /** A reset charges the quota for every message within it, but takes only QoS 1
      messages for released whatever their state. */
  lemma {:induction false} ResetCredit(l: seq<Message>, quota: nat)
    requires Plain(l)
    ensures var w := ResetOut(l, quota);
            && w.quota + Count(w.list) <= quota
            && (w.quota + Count(w.list) == quota <==>
                  forall i | 0 <= i < Min(|l|, quota) :: l[i].qos == 1 || Released(l[i]))
  {
    if l != [] {
      var head, rest := l[0], l[1..];
      assert head in l && forall m | m in rest :: m in l;
      assert forall i | 1 <= i < |l| :: l[i] == rest[i - 1];
      var quota' := if quota != 0 then quota - 1 else 0;
      ResetCredit(rest, quota');
      var m := if quota != 0 then ResetState(head) else head.(state := Invalid);
      CountCons(m, ResetOut(rest, quota').list);
      if forall i | 0 <= i < Min(|l|, quota) :: l[i].qos == 1 || Released(l[i]) {
        forall i | 0 <= i < Min(|rest|, quota') ensures rest[i].qos == 1 || Released(rest[i]) { assert rest[i] == l[i + 1]; }
      }
    }
  }

  /** No quota is lost at a reset exactly when, among the messages that the
      maximum allows, every QoS 2 message had been sent. */
  lemma ResetExact(s: State)
    requires Plain(s.out.list)
    ensures var l, t := s.out.list, ReconnectReset(s);
            t.out.quota + Count(t.out.list) >= t.out.maximum <==>
            forall i | 0 <= i < Min(|l|, s.out.maximum) :: l[i].qos == 1 || Released(l[i])
  {
    ResetCredit(s.out.list, s.out.maximum);
  }

  /** Resending changes nothing but the duplicate flags. */
  lemma {:induction false} RetrySame(l: seq<Message>, wire: seq<Sent>, net: Net)
    ensures var w := Retry(l, wire, net);
            && |w.list| == |l|
            && (forall i | 0 <= i < |l| :: w.list[i] == l[i] || w.list[i] == l[i].(dup := true))
  {
    if l != [] {
      var w := Retry(l, wire, net);
      RetrySame(l[1..], wire + RetrySends(l[0], net(|wire|)), net);
      forall i | 0 <= i < |l| ensures w.list[i] == l[i] || w.list[i] == l[i].(dup := true) {
        if i > 0 { assert l[i] == l[1..][i - 1]; }
      }
    }
  }

  lemma {:induction false} SameStates(l: seq<Message>, l': seq<Message>)
    requires |l| == |l'|
    requires forall i | 0 <= i < |l| :: l'[i].state == l[i].state && l'[i].qos == l[i].qos
    ensures Count(l') == Count(l) && (InOrder(l') <==> InOrder(l)) && (Plain(l') <==> Plain(l))
  {
    if l != [] {
      assert forall i | 0 <= i < |l[1..]| :: l[1..][i] == l[i + 1] && l'[1..][i] == l'[i + 1];
      SameStates(l[1..], l'[1..]);
    }
  }

  // ---------- the invariant ----------

  /** Messages are handed out in the order they were published; as many are out
      as the maximum allows; and quota that is missing is accounted for by
      messages that are out. */
  predicate Window(s: State) {
    var l := s.out.list;
    && 1 <= s.out.maximum && s.out.quota <= s.out.maximum
    && Plain(l) && InOrder(l)
    && Count(l) >= Min(|l|, s.out.maximum)
    && s.out.quota + Count(l) >= s.out.maximum
  }

  /** With messages in the list the first one has been handed out, and an empty quota
      means that as many have been as the maximum allows. Whether their packets went
      out is the subject of Progress. */
  lemma WindowFilled(s: State)
    requires Window(s)
    ensures s.out.list != [] ==> Released(s.out.list[0])
    ensures s.out.quota == 0 ==> Count(s.out.list) >= s.out.maximum >= 1
  {
  }

  /** When an event keeps the window: a PUBREC must not name a message further
      back than the next one to be released, and CONNACK may not raise the
      maximum above what is out while messages are waiting. */
  predicate Fair(s: State, e: Event) {
    match e
    case OnPubrec(Ack(mid, reason)) =>
      s.state == Active && (reason < 0x80 || s.protocol != V5) ==>
        var found := Find(s.out.list, mid, 2);
        found.Found? ==> found.k <= Count(s.out.list)
    case OnConnack(_, Some(max)) => max <= Count(s.out.list) || Count(s.out.list) == |s.out.list|
    case _ => true
  }

  lemma ReleaseKeeps(s: State, net: Net)
    requires 1 <= s.out.maximum && s.out.quota <= s.out.maximum
    requires Plain(s.out.list) && InOrder(s.out.list)
    requires s.out.quota + Count(s.out.list) >= s.out.maximum
    requires Count(s.out.list) + 1 >= Min(|s.out.list|, s.out.maximum)
    ensures Window(ReleaseMore(s, net).s)
  {
    ReleaseWindow(s.out.list, s.out.quota, s.wire, net);
    ReleasePlain(s.out.list, s.out.quota, s.wire, net);
  }

  lemma PublishKeeps(s: State, qos: nat, content: Content, net: Net)
    requires Window(s) && qos <= 2
    ensures Window(PublishOut(s, qos, content, net).s)
  {
    if qos == 0 { return; }
    var o := DrawMid(s.out);
    var m := Message(o.drawn, o.lastMid, qos, Invalid, false, content);
    AppendWindow(o.list, m);
    ReleaseKeeps(s.(out := o.(list := o.list + [m], queueLen := o.queueLen + 1), notes := s.notes + [Appended(m.serial)]), net);
  }

  lemma CompleteKeeps(s: State, k: nat, refused: bool)
    requires Plain(s.out.list) && InOrder(s.out.list) && k < |s.out.list|
    ensures var t := Complete(s, k, refused);
            && t.out.quota == s.out.quota && t.out.maximum == s.out.maximum
            && Plain(t.out.list) && InOrder(t.out.list) && |t.out.list| == |s.out.list| - 1
            && Count(t.out.list) == Count(s.out.list) - (if Released(s.out.list[k]) then 1 else 0)
  {
    WithoutWindow(s.out.list, k);
  }

  lemma PubAckCompKeeps(s: State, qos: nat, ack: Ack, net: Net)
    requires Window(s)
    ensures Window(PubAckComp(s, qos, ack, net).s)
  {
    if s.state == Active && ack.Ack? {
      var s' := CreditOut(s);
      match Find(s'.out.list, ack.mid, qos)
      case WrongQos =>
      case Missing => ReleaseKeeps(s', net);
      case Found(k) =>
        CompleteKeeps(s', k, false);
        ReleaseKeeps(Complete(s', k, false), net);
    }
  }

  lemma ReplaceCount(l: seq<Message>, k: nat, m: Message)
    requires k < |l| && Released(m)
    ensures Count(l[k := m]) == Count(l) + (if Released(l[k]) then 0 else 1)
    ensures Plain(l) && m.qos == l[k].qos ==> Plain(l[k := m])
  {
    CountSplit(l, k);
    CountSplit(l[k := m], k);
    assert l[k := m][..k] == l[..k] && l[k := m][k + 1..] == l[k + 1..];
    if Plain(l) && m.qos == l[k].qos {
      assert l[k] in l;
      forall x | x in l[k := m] ensures x.qos == 1 || x.qos == 2 {
        var i :| 0 <= i < |l| && l[k := m][i] == x;
        if i != k { assert l[i] in l; }
      }
    }
  }

  lemma ReplaceWindow(l: seq<Message>, k: nat, m: Message)
    requires k < |l| && Released(m) && InOrder(l)
    ensures InOrder(l[k := m]) <==> k <= Count(l)
  {
    ReplaceCount(l, k, m);
    InOrderMeans(l);
    InOrderMeans(l[k := m]);
    var l' := l[k := m];
    if k <= Count(l) {
      forall i | 0 <= i < |l'| ensures Released(l'[i]) <==> i < Count(l') {
        assert l'[i] == if i == k then m else l[i];
      }
    } else {
      assert Released(l'[k]) && l'[Count(l)] == l[Count(l)];
    }
  }

  lemma ReceivedExact(s: State, k: nat, net: Net)
    requires Window(s) && k < |s.out.list|
    ensures var l := s.out.list;
            var t := s.(out := s.out.(list := l[k := l[k].(state := WaitForPubcomp)]));
            Window(t) <==> k <= Count(l)
  {
    var l := s.out.list;
    var m := l[k].(state := WaitForPubcomp);
    ReplaceCount(l, k, m);
    ReplaceWindow(l, k, m);
    hide InOrder, Count, Plain;
  }

  lemma WindowOf(s: State, t: State)
    requires t.out == s.out
    ensures Window(t) <==> Window(s)
  {
  }

  lemma PubRecExact(s: State, ack: Ack, net: Net)
    requires Window(s)
    ensures Window(PubRec(s, ack, net).s) <==> Fair(s, OnPubrec(ack))
  {
    if s.state == Active && ack.Ack? {
      var l := s.out.list;
      if ack.reason < 0x80 || s.protocol != V5 {
        match Find(l, ack.mid, 2)
        case Found(k) =>
          ReceivedExact(s, k, net);
          WindowOf(s.(out := s.out.(list := l[k := l[k].(state := WaitForPubcomp)])), PubRec(s, ack, net).s);
        case _ => WindowOf(s, PubRec(s, ack, net).s);
        hide Window;
      } else {
        RefusedKeeps(s, ack, net);
      }
    }
  }

  lemma RefusedKeeps(s: State, ack: Ack, net: Net)
    requires Window(s) && s.state == Active && ack.Ack? && s.protocol == V5 && ack.reason >= 0x80
    ensures Window(PubRec(s, ack, net).s)
  {
    match Find(s.out.list, ack.mid, 2)
    case Found(k) =>
      CompleteKeeps(s, k, true);
      ReleaseKeeps(CreditOut(Complete(s, k, true)), net);
    case _ => ReleaseKeeps(CreditOut(s), net);
  }

  lemma ResetKeeps(s: State)
    requires Window(s)
    ensures Window(ReconnectReset(s))
    ensures Count(ReconnectReset(s).out.list) == Min(|s.out.list|, s.out.maximum)
    ensures ReconnectReset(s).out.quota == s.out.maximum - Min(|s.out.list|, s.out.maximum)
  {
    InOrderMeans(s.out.list);
    ResetWindow(s.out.list, s.out.maximum);
  }

  lemma ConnackExact(s: State, reason: byte, max: Option<uint16>, net: Net)
    requires Window(s) && max != Some(0)
    ensures Window(Connack(s, reason, max, net).s) <==> Fair(s, OnConnack(reason, max))
  {
    var l := s.out.list;
    RetrySame(l, s.wire, net);
    SameStates(l, Retry(l, s.wire, net).list);
  }

  /** Whatever happens next, the window is kept exactly when the event is fair:
      publishing, sends that fail, acknowledgements that are late, repeated,
      unknown, malformed or of the wrong QoS, resets and reconnections all keep
      it. */
  lemma WindowExact(s: State, e: Event, net: Net)
    requires Window(s) && Possible(e)
    ensures Window(Next(s, e, net)) <==> Fair(s, e)
  {
    match e
    case DoPublish(qos, content) => PublishKeeps(s, qos, content, net);
    case DoTakeMid =>
    case DoConnectInit =>
    case DoReset => ResetKeeps(s);
    case DoSetReceiveMaximum(_) =>
    case DoSetState(_) =>
    case OnConnack(reason, max) => ConnackExact(s, reason, max, net);
    case OnPuback(a) => PubAckCompKeeps(s, 1, a, net);
    case OnPubcomp(a) => PubAckCompKeeps(s, 2, a, net);
    case OnPubrec(a) => PubRecExact(s, a, net);
    case OnPublish(_) =>
    case OnPubrel(_, _) =>
  }

  /** A maximum that is not raised is fair, and so is a PUBREC for a message that
      has been sent. */
  lemma FairInPractice(s: State, e: Event)
    requires Window(s)
    requires match e
             case OnConnack(_, Some(max)) => max <= s.out.maximum
             case OnPubrec(Ack(mid, _)) =>
               Find(s.out.list, mid, 2).Found? ==> Released(s.out.list[Find(s.out.list, mid, 2).k])
             case _ => true
    ensures Fair(s, e)
  {
    InOrderMeans(s.out.list);
  }

  ghost predicate FairRun(s: State, es: seq<Event>, net: Net)
    decreases |es|
  {
    es == [] || (Possible(es[0]) && Fair(s, es[0]) && FairRun(Next(s, es[0], net), es[1..], net))
  }

  /** The window holds in every state of every fair run, over any number of
      reconnections and any pattern of failing sends. */
  lemma {:induction false} WindowRun(s: State, es: seq<Event>, net: Net)
    requires Window(s) && FairRun(s, es, net)
    ensures Window(Run(s, es, net))
    decreases |es|
  {
    if es != [] {
      WindowExact(s, es[0], net);
      WindowRun(Next(s, es[0], net), es[1..], net);
    }
  }

  // ---------- before the first connection ----------

  predicate Offline(e: Event) { (e.DoPublish? && e.outQos <= 2) || e.DoTakeMid? }

  /** The sends made from one state to another all failed. */
  ghost predicate AllFailed(w: seq<Sent>, w': seq<Sent>, net: Net) { forall i | |w| <= i < |w'| :: net(i) != SUCCESS }

  lemma {:induction false} ReleaseGrows(l: seq<Message>, quota: nat, wire: seq<Sent>, net: Net)
    ensures |wire| <= |ReleaseToInflight(l, quota, wire, net).wire|
  {
    if l != [] && quota > 0 {
      if l[0].qos > 0 && l[0].state == Invalid {
        ReleaseGrows(l[1..], Decrement(quota), wire + [SentPublish(Release(l[0]), net(|wire|))], net);
      } else {
        ReleaseGrows(l[1..], quota, wire, net);
      }
    }
  }

  lemma {:induction false} FailedSendsCostNothing(l: seq<Message>, quota: nat, wire: seq<Sent>, net: Net)
    requires AllFailed(wire, ReleaseToInflight(l, quota, wire, net).wire, net)
    ensures ReleaseToInflight(l, quota, wire, net).quota == quota
  {
    if l != [] && quota > 0 {
      if l[0].qos > 0 && l[0].state == Invalid {
        ReleaseGrows(l[1..], Decrement(quota), wire + [SentPublish(Release(l[0]), net(|wire|))], net);
      } else {
        FailedSendsCostNothing(l[1..], quota, wire, net);
      }
    }
  }

  lemma OfflinePublish(l: seq<Message>, m: Message, quota: nat, wire: seq<Sent>, net: Net)
    requires AllFailed(wire, ReleaseToInflight(l + [m], quota, wire, net).wire, net)
    requires Plain(l) && Count(l) == |l| && quota > 0 && !Released(m) && (m.qos == 1 || m.qos == 2)
    ensures var w := ReleaseToInflight(l + [m], quota, wire, net);
            Plain(w.list) && Count(w.list) == |w.list| && w.quota == quota
  {
    CountConcat(l, [m]);
    FailedSendsCostNothing(l + [m], quota, wire, net);
    ReleaseWindow(l + [m], quota, wire, net);
    ReleasePlain(l + [m], quota, wire, net);
  }

  lemma {:induction false} OfflineGrows(s: State, es: seq<Event>, net: Net)
    requires forall e | e in es :: Offline(e)
    ensures |s.wire| <= |Run(s, es, net).wire|
    decreases |es|
  {
    if es != [] {
      assert es[0] in es && forall e | e in es[1..] :: e in es;
      if es[0].DoPublish? && es[0].outQos > 0 {
        var o := DrawMid(s.out);
        ReleaseGrows(o.list + [Message(o.drawn, o.lastMid, es[0].outQos, Invalid, false, es[0].outContent)], o.quota, s.wire, net);
      }
      OfflineGrows(Next(s, es[0], net), es[1..], net);
    }
  }

  /** Messages published before connecting: every send fails for want of a
      socket, so each message is marked as handed out and none is charged. */
  lemma {:induction false} OfflineRun(s: State, es: seq<Event>, net: Net)
    requires AllFailed(s.wire, Run(s, es, net).wire, net)
    requires forall e | e in es :: Offline(e)
    requires Plain(s.out.list) && Count(s.out.list) == |s.out.list| && s.out.quota > 0
    ensures var t := Run(s, es, net);
            && Plain(t.out.list) && Count(t.out.list) == |t.out.list|
            && t.out.quota == s.out.quota && t.out.maximum == s.out.maximum
    decreases |es|
  {
    if es != [] {
      assert es[0] in es && forall e | e in es[1..] :: e in es;
      var t := Next(s, es[0], net);
      OfflineGrows(s, [es[0]], net);
      OfflineGrows(t, es[1..], net);
      assert Run(s, [es[0]], net) == t by { assert [es[0]][1..] == []; }
      if es[0].DoPublish? && es[0].outQos > 0 {
        var o := DrawMid(s.out);
        var m := Message(o.drawn, o.lastMid, es[0].outQos, Invalid, false, es[0].outContent);
        OfflinePublish(o.list, m, o.quota, s.wire, net);
      }
      OfflineRun(t, es[1..], net);
    }
  }

  lemma {:induction false} AllReleased(l: seq<Message>)
    requires Count(l) == |l|
    ensures InOrder(l)
  {
    if l != [] { AllReleased(l[1..]); }
  }

  /** From mosquitto_new on: publish at will, then connect, and the window is
      there. */
  lemma WindowStarts(protocol: Protocol, outMax: nat, inMax: nat, before: seq<Event>, net: Net)
    requires outMax >= 1
    requires forall e | e in before :: Offline(e)
    requires AllFailed([], Run(Start(protocol, outMax, inMax), before, net).wire, net)
    ensures Window(ConnectInit(Run(Start(protocol, outMax, inMax), before, net)))
  {
    OfflineRun(Start(protocol, outMax, inMax), before, net);
    AllReleased(Run(Start(protocol, outMax, inMax), before, net).out.list);
  }

  /** And there it stays: from the first connection on, in every state of every
      fair run. */
  lemma WindowAlways(protocol: Protocol, outMax: nat, inMax: nat, before: seq<Event>, after: seq<Event>, net: Net)
    requires outMax >= 1
    requires forall e | e in before :: Offline(e)
    requires AllFailed([], Run(Start(protocol, outMax, inMax), before, net).wire, net)
    requires FairRun(ConnectInit(Run(Start(protocol, outMax, inMax), before, net)), after, net)
    ensures Window(Run(ConnectInit(Run(Start(protocol, outMax, inMax), before, net)), after, net))
  {
    hide Window, FairRun, AllFailed;
    WindowStarts(protocol, outMax, inMax, before, net);
    WindowRun(ConnectInit(Run(Start(protocol, outMax, inMax), before, net)), after, net);
  }
}
