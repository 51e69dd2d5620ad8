/**
 * Resuming after a lost connection (section 4.4 of MQTT Version 5.0), and the
 * two inputs on which the send window is not kept.
 */
module Resume {
  import opened Mqtt
  import opened Inflight
  import opened Delivery
  import opened SendWindow
  import opened History
  import opened Inputs

  /** The broker has acknowledged the PUBLISH; only PUBREL is still due. */
  predicate HasPubrec(m: Message) { m.state == WaitForPubcomp || m.state == ResendPubrel }

  /** What is due for a message that was out when the connection was lost: the
      same PUBLISH marked as a duplicate, or PUBREL. */
  predicate Resent(m: Message, sent: Sent, rc: int) {
    if HasPubrec(m) then sent == SentAck(CMD_PUBREL + 2, m.mid, rc)
    else
      && sent.SentPublish? && sent.rc == rc
      && sent.msg.dup && sent.msg.serial == m.serial && sent.msg.mid == m.mid
      && sent.msg.qos == m.qos && sent.msg.content == m.content
  }

  /** The messages that a reset keeps are the first ones, and all of them are
      out; whatever is behind them is not. */
  predicate ReadyToResend(l: seq<Message>, n: nat) {
    n <= |l| && forall i | 0 <= i < |l| ::
      if i < n then l[i].state in {PublishQos1, PublishQos2, ResendPubrel} else l[i].state == Invalid
  }

  lemma {:induction false} ResetReady(l: seq<Message>, quota: nat)
    requires AllPhased(l)
    requires forall i | 0 <= i < Min(|l|, quota) :: Released(l[i])
    ensures var l' := ResetOut(l, quota).list;
            && |l'| == |l| && ReadyToResend(l', Min(|l|, quota))
            && (forall i | 0 <= i < Min(|l|, quota) :: l'[i] == ResetState(l[i]))
  {
    if l != [] {
      var head, rest := l[0], l[1..];
      assert forall i | 0 <= i < |rest| :: rest[i] == l[i + 1];
      var quota' := if quota != 0 then Decrement(quota) else quota;
      ResetReady(rest, quota');
      var m := if quota != 0 then ResetState(head) else head.(state := Invalid);
      var tail := ResetOut(rest, quota').list;
      var l' := [m] + tail;
      assert forall i | 1 <= i < |l'| :: l'[i] == tail[i - 1];
      assert Phased(head);
    }
  }

  lemma {:induction false} RetryWire(l: seq<Message>, n: nat, wire: seq<Sent>, net: Net)
    requires ReadyToResend(l, n)
    ensures var w := Retry(l, wire, net).wire;
            && |w| == |wire| + n && wire <= w
            && forall i | 0 <= i < n ::
                 w[|wire| + i] == (if l[i].state == ResendPubrel then SentAck(CMD_PUBREL + 2, l[i].mid, net(|wire| + i))
                                   else SentPublish(l[i].(dup := true), net(|wire| + i)))
  {
    if l != [] {
      var head, rest := l[0], l[1..];
      assert forall i | 0 <= i < |rest| :: rest[i] == l[i + 1];
      var wire' := wire + RetrySends(head, net(|wire|));
      if n == 0 {
        assert wire' == wire;
        RetryWire(rest, 0, wire, net);
      } else {
        RetryWire(rest, n - 1, wire', net);
        var w := Retry(l, wire, net).wire;
        assert w[|wire|] == wire'[|wire|];
        forall i | 0 <= i < n
          ensures w[|wire| + i] == (if l[i].state == ResendPubrel then SentAck(CMD_PUBREL + 2, l[i].mid, net(|wire| + i))
                                    else SentPublish(l[i].(dup := true), net(|wire| + i)))
        {
          if i > 0 { assert l[i] == rest[i - 1] && |wire| + i == |wire'| + (i - 1); }
        }
      }
    }
  }

  /** The same, from the messages before the reset. */
  lemma ResetRetryWire(l: seq<Message>, quota: nat, wire: seq<Sent>, net: Net)
    requires AllPhased(l)
    requires forall i | 0 <= i < Min(|l|, quota) :: Released(l[i])
    ensures var w := Retry(ResetOut(l, quota).list, wire, net).wire;
            && wire <= w && |w| == |wire| + Min(|l|, quota)
            && forall i | 0 <= i < Min(|l|, quota) :: Resent(l[i], w[|wire| + i], net(|wire| + i))
  {
    var n, l' := Min(|l|, quota), ResetOut(l, quota).list;
    ResetReady(l, quota);
    RetryWire(l', n, wire, net);
    var w := Retry(l', wire, net).wire;
    forall i | 0 <= i < n ensures Resent(l[i], w[|wire| + i], net(|wire| + i)) {
      PhaseKept(l[i]);
    }
  }

  lemma ResetRetryReleased(l: seq<Message>, quota: nat, wire: seq<Sent>, net: Net)
    requires AllPhased(l)
    requires forall i | 0 <= i < Min(|l|, quota) :: Released(l[i])
    ensures var r := Retry(ResetOut(l, quota).list, wire, net).list;
            |r| == |l| && forall i | 0 <= i < |l| :: Released(r[i]) <==> i < Min(|l|, quota)
  {
    ResetReady(l, quota);
    RetrySame(ResetOut(l, quota).list, wire, net);
  }

  /** A reset followed by an accepted CONNACK sends, in list order, exactly one
      packet for each of the first messages that the maximum allows: PUBREL if
      PUBREC had come, a duplicate PUBLISH otherwise. The other messages wait
      as if never sent. The results of these sends do not matter. */
  lemma ResendInOrder(s: State, receiveMaximum: Option<uint16>, net: Net)
    requires Window(s) && AllPhased(s.out.list)
    ensures var l := s.out.list;
            var n := Min(|l|, s.out.maximum);
            var t := Connack(ReconnectReset(s), 0, receiveMaximum, net).s;
            && s.wire <= t.wire && |t.wire| == |s.wire| + n
            && (forall i | 0 <= i < n :: Resent(l[i], t.wire[|s.wire| + i], net(|s.wire| + i)))
            && |t.out.list| == |l|
            && (forall i | 0 <= i < |l| :: Released(t.out.list[i]) <==> i < n)
  {
    InOrderMeans(s.out.list);
    ResetRetryWire(s.out.list, s.out.maximum, s.wire, net);
    ResetRetryReleased(s.out.list, s.out.maximum, s.wire, net);
    hide Retry, ResetOut, ResetIn, Resent, AllPhased;
  }

  /** A message that a retry is about. */
  predicate Unfinished(m: Message) { m.state in {PublishQos1, PublishQos2, ResendPubrel, WaitForPubcomp} }

  function AllUnfinished(l: seq<Message>): seq<Message> {
    if l == [] then [] else (if Unfinished(l[0]) then [l[0]] else []) + AllUnfinished(l[1..])
  }

  lemma RetriedMessage(m: Message, rc: int)
    requires Phased(m)
    ensures if Unfinished(m) then |RetrySends(m, rc)| == 1 && Resent(m, RetrySends(m, rc)[0], rc) else RetrySends(m, rc) == []
    ensures RetryMessage(m) == if Unfinished(m) then m.(dup := true) else m
  {
  }

  /** Whatever phases they are in, a CONNACK resends these, in list order, and no
      others, and marks them as duplicates. */
  lemma {:induction false} RetryExact(l: seq<Message>, wire: seq<Sent>, net: Net)
    requires AllPhased(l)
    ensures var u, w := AllUnfinished(l), Retry(l, wire, net);
            && wire <= w.wire && |w.wire| == |wire| + |u|
            && (forall i | 0 <= i < |u| :: Resent(u[i], w.wire[|wire| + i], net(|wire| + i)))
            && |w.list| == |l|
            && forall k | 0 <= k < |l| :: w.list[k] == if Unfinished(l[k]) then l[k].(dup := true) else l[k]
  {
    hide Unfinished, Resent, Phased, RetrySends, RetryMessage;
    if l != [] {
      assert Phased(l[0]) && AllPhased(l[1..]);
      RetriedMessage(l[0], net(|wire|));
      var wire' := wire + RetrySends(l[0], net(|wire|));
      var u, v, w := AllUnfinished(l), AllUnfinished(l[1..]), Retry(l, wire, net);
      RetryExact(l[1..], wire', net);
      forall i | 0 <= i < |u| ensures Resent(u[i], w.wire[|wire| + i], net(|wire| + i)) {
        if Unfinished(l[0]) {
          if i > 0 {
            assert u[i] == v[i - 1] && |wire| + i == |wire'| + (i - 1);
          } else {
            assert w.wire[|wire|] == wire'[|wire|];
          }
        }
      }
    }
  }

  /** The QoS 2 messages of a list. */
  function Qos2Of(l: seq<Message>): seq<Message> {
    if l == [] then [] else (if l[0].qos == 2 then [l[0]] else []) + Qos2Of(l[1..])
  }

  /** Of any inbound list a reset keeps these, and charges each as long as there is
      quota. */
  lemma {:induction false} ResetInExact(l: seq<Message>, quota: nat)
    ensures var w := ResetIn(l, quota);
            w.list == Qos2Of(l) && w.quota == if quota > |Qos2Of(l)| then quota - |Qos2Of(l)| else 0
  {
    if l != [] { ResetInExact(l[1..], if l[0].qos == 2 then Decrement(quota) else quota); }
  }

  lemma PhaseKept(m: Message)
    requires Phased(m) && Released(m)
    ensures HasPubrec(m) <==> ResetState(m).state == ResendPubrel
  {
  }

  // ---------- where the window is lost ----------

  /** A PUBREC for a message that was never sent puts it ahead of an older one
      that is still waiting. */
  lemma EarlyPubrecBreaksOrder(content: Content, net: Net)
    requires net(0) == SUCCESS
    ensures var s := Run(Start(V5, 1, 20), Filling(content), net);
            var t := Run(Start(V5, 1, 20), Filling(content) + [OnPubrec(Ack(3, 0))], net);
            && Window(s) && !Window(t)
            && |t.out.list| == 3 && Released(t.out.list[2]) && !Released(t.out.list[1])
  {
    hide Start, Run, Filling, Window;
    var s := FullWindow(content);
    FullWindowReached(content, net);
    FullWindowCounts(content);
    RunMore(Start(V5, 1, 20), Filling(content), OnPubrec(Ack(3, 0)), net);
    WindowExact(s, OnPubrec(Ack(3, 0)), net);
  }

  /** What a maximum raised by CONNACK comes to at the next reset: quota is lost
      exactly when a QoS 2 message within the new maximum had not been sent. */
  lemma RaisedMaximumExact(s: State, reason: byte, max: uint16, net: Net)
    requires Window(s)
    ensures var l := s.out.list;
            var u := ReconnectReset(Connack(s, reason, Some(max), net).s);
            && u.out.maximum == max
            && (u.out.quota + Count(u.out.list) >= max <==>
                  forall i | 0 <= i < Min(|l|, max) :: l[i].qos == 1 || Released(l[i]))
  {
    var l, t := s.out.list, Connack(s, reason, Some(max), net).s;
    RetrySame(l, s.wire, net);
    SameStates(l, Retry(l, s.wire, net).list);
    ResetExact(t);
    hide Retry, ResetOut, ResetIn, Window;
    assert forall i | 0 <= i < |l| :: t.out.list[i].qos == l[i].qos && t.out.list[i].state == l[i].state;
  }

  /** Such an input: maximum 1 with a QoS 1 message out and a QoS 2 message waiting,
      a reconnection whose CONNACK raises the maximum to 2, and another reset. */
  lemma RaisedMaximumLosesQuota(content: Content, net: Net)
    requires net(0) == SUCCESS
    ensures var before := Filling(content) + [DoReset];
            var s := Run(Start(V5, 1, 20), before, net);
            var t := Run(Start(V5, 1, 20), before + [OnConnack(0, Some(2))], net);
            var u := Run(Start(V5, 1, 20), before + [OnConnack(0, Some(2))] + [DoReset], net);
            && Window(s) && !Window(t)
            && u.out.quota + Count(u.out.list) < u.out.maximum == 2
  {
    hide Start, Run, Filling, Window, Connack, ReconnectReset;
    var s0, before := Start(V5, 1, 20), Filling(content) + [DoReset];
    FullWindowReached(content, net);
    TakenBack(content);
    RunMore(s0, Filling(content), DoReset, net);
    RunMore(s0, before, OnConnack(0, Some(2)), net);
    RunMore(s0, before + [OnConnack(0, Some(2))], DoReset, net);
    var s := ReconnectReset(FullWindow(content));
    WindowExact(s, OnConnack(0, Some(2)), net);
    RaisedMaximumExact(s, 0, 2, net);
    assert s.out.list[1].qos == 2 && !Released(s.out.list[1]);
  }

  lemma TakenBack(content: Content)
    ensures var s := ReconnectReset(FullWindow(content));
            Window(s) && |s.out.list| == 3 && Count(s.out.list) == 1 && s.out.list[1].qos == 2 && !Released(s.out.list[1])
  {
    FullWindowCounts(content);
    ResetKeeps(FullWindow(content));
    var l := FullWindow(content).out.list;
    var r := ResetOut(l, 1).list;
    ResetWindow(l, 1);
    InOrderMeans(r);
    ResetAlike(l, 1);
    assert SameMessage(l[1], r[1]);
    hide ResetIn, ResetOut, Window, InOrder, Count;
  }
}
