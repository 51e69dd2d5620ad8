/**
 * Order of publication over whole runs, reconnections included (section 4.6 of
 * MQTT Version 5.0): messages may be sent again, and a reset may take them back,
 * but each is handed out for the first time behind all that were published
 * before it.
 */
module Ordering {
  import opened Mqtt
  import opened Inflight
  import opened Delivery
  import opened SendWindow
  import opened History
  import opened Inputs
  import opened Exchange

  /** A message has been handed out. */
  ghost predicate Seen(w: seq<Sent>, serial: nat) { exists i :: 0 <= i < |w| && Handed(w[i]) && w[i].msg.serial == serial }

  /** Each message that is handed out for the first time was published later than
      all handed out before it. */
  ghost predicate FirstsInOrder(w: seq<Sent>) {
    forall i, j {:trigger w[i], w[j]} | 0 <= i < j < |w| && Handed(w[i]) && Handed(w[j]) && !Seen(w[..j], w[j].msg.serial) ::
      w[i].msg.serial < w[j].msg.serial
  }

  /** What keeps it so: whatever counts as out has been handed out, and so has every
      message of the list that was published before one that has been. */
  ghost predicate Ordered(s: State) {
    var l, w := s.out.list, s.wire;
    && FirstsInOrder(w)
    && (forall k | 0 <= k < |l| && Released(l[k]) :: Seen(w, l[k].serial))
    && (forall i, k {:trigger w[i], l[k]} | 0 <= i < |w| && 0 <= k < |l| && Handed(w[i]) && l[k].serial <= w[i].msg.serial ::
          Seen(w, l[k].serial))
    && (forall i | 0 <= i < |w| && Handed(w[i]) :: w[i].msg.serial <= s.out.drawn)
  }

  lemma SeenMore(w: seq<Sent>, w': seq<Sent>, serial: nat)
    requires w <= w' && Seen(w, serial)
    ensures Seen(w', serial)
  {
    var i :| 0 <= i < |w| && Handed(w[i]) && w[i].msg.serial == serial;
    assert w'[i] == w[i];
  }

  /** Sending messages again, or other packets. */
  lemma SameFirsts(w: seq<Sent>, w': seq<Sent>)
    requires FirstsInOrder(w) && w <= w'
    requires forall i | |w| <= i < |w'| && Handed(w'[i]) :: Seen(w, w'[i].msg.serial)
    ensures FirstsInOrder(w')
  {
    hide Seen;
    forall i, j | 0 <= i < j < |w'| && Handed(w'[i]) && Handed(w'[j]) && !Seen(w'[..j], w'[j].msg.serial)
      ensures w'[i].msg.serial < w'[j].msg.serial
    {
      if j < |w| {
        assert w'[..j] == w[..j] && w'[i] == w[i] && w'[j] == w[j];
      } else {
        assert w <= w'[..j];
        SeenMore(w, w'[..j], w'[j].msg.serial);
      }
    }
  }

  /** An event that hands out nothing new. */
  lemma OtherOrdered(s: State, t: State)
    requires Ordered(s) && s.wire <= t.wire && s.out.drawn <= t.out.drawn
    requires forall i | |s.wire| <= i < |t.wire| && Handed(t.wire[i]) :: Seen(s.wire, t.wire[i].msg.serial)
    requires forall k | 0 <= k < |t.out.list| ::
               && (exists j :: 0 <= j < |s.out.list| && s.out.list[j].serial == t.out.list[k].serial)
               && (Released(t.out.list[k]) ==> Seen(s.wire, t.out.list[k].serial))
    ensures Ordered(t)
  {
    var l, w, l', w' := s.out.list, s.wire, t.out.list, t.wire;
    SameFirsts(w, w');
    assert forall i | 0 <= i < |w| :: w'[i] == w[i];
    forall k | 0 <= k < |l'| && Released(l'[k]) ensures Seen(w', l'[k].serial) { SeenMore(w, w', l'[k].serial); }
    forall i, k | 0 <= i < |w'| && 0 <= k < |l'| && Handed(w'[i]) && l'[k].serial <= w'[i].msg.serial
      ensures Seen(w', l'[k].serial)
    {
      var j :| 0 <= j < |l| && l[j].serial == l'[k].serial;
      var h := HandedBefore(w, w', i);
      assert Handed(w[h]) && l[j].serial <= w[h].msg.serial;
      SeenMore(w, w', l[j].serial);
    }
    forall i | 0 <= i < |w'| && Handed(w'[i]) ensures w'[i].msg.serial <= t.out.drawn {
      var h := HandedBefore(w, w', i);
      assert Handed(w[h]);
    }
  }

  /** Where a message that is sent again was sent before. */
  lemma HandedBefore(w: seq<Sent>, w': seq<Sent>, i: nat) returns (h: nat)
    requires w <= w' && i < |w'| && Handed(w'[i])
    requires |w| <= i ==> Seen(w, w'[i].msg.serial)
    ensures h < |w| && Handed(w[h]) && w[h].msg.serial == w'[i].msg.serial
  {
    if i < |w| {
      h := i;
    } else {
      h :| 0 <= h < |w| && Handed(w[h]) && w[h].msg.serial == w'[i].msg.serial;
    }
  }

  lemma SameListOrdered(s: State, t: State)
    requires Ordered(s) && s.wire <= t.wire && s.out.drawn <= t.out.drawn && t.out.list == s.out.list
    requires forall i | |s.wire| <= i < |t.wire| :: !Handed(t.wire[i])
    ensures Ordered(t)
  {
    hide Seen, FirstsInOrder, Handed;
    OtherOrdered(s, t);
  }

  /** A walk. */
  lemma WalkedOrdered(s: State, t: State, n: nat, n': nat)
    requires Ordered(s) && Numbered(s.out.list, s.out.drawn) && t.out.drawn == s.out.drawn
    requires Walked(s.out.list, t.out.list, s.wire, t.wire, n, n')
    ensures Ordered(t)
  {
    var l, w, l', w' := s.out.list, s.wire, t.out.list, t.wire;
    hide Ordered, FirstsInOrder, Seen;
    WalkedFirsts(s, w', l', n, n');
    forall k | 0 <= k < n' ensures Seen(w', l[k].serial) { WalkedSeen(s, w', l', n, n', k); }
    WalkedRest(s, t, n, n');
  }

  lemma WalkedSeen(s: State, w': seq<Sent>, l': seq<Message>, n: nat, n': nat, k: nat)
    requires Ordered(s) && Walked(s.out.list, l', s.wire, w', n, n') && k < n'
    ensures Seen(w', s.out.list[k].serial)
  {
    var l, w := s.out.list, s.wire;
    if k < n {
      hide FirstsInOrder;
      assert Released(l[k]);
      SeenMore(w, w', l[k].serial);
    } else {
      var i := |w| + (k - n);
      assert Handed(w'[i]) && w'[i].msg.serial == l[n + (i - |w|)].serial;
    }
  }

  lemma WalkedFirsts(s: State, w': seq<Sent>, l': seq<Message>, n: nat, n': nat)
    requires Ordered(s) && Numbered(s.out.list, s.out.drawn) && Walked(s.out.list, l', s.wire, w', n, n')
    ensures FirstsInOrder(w')
  {
    hide Seen;
    var l, w := s.out.list, s.wire;
    forall i, j | 0 <= i < j < |w'| && Handed(w'[i]) && Handed(w'[j]) && !Seen(w'[..j], w'[j].msg.serial)
      ensures w'[i].msg.serial < w'[j].msg.serial
    {
      if j < |w| {
        assert w'[..j] == w[..j] && w'[i] == w[i] && w'[j] == w[j];
      } else {
        var k := n + (j - |w|);
        assert w'[j].msg.serial == l[k].serial;
        if i < |w| {
          assert w'[i] == w[i] && w <= w'[..j];
          if l[k].serial <= w[i].msg.serial { SeenMore(w, w'[..j], l[k].serial); }
        } else {
          assert w'[i].msg.serial == l[n + (i - |w|)].serial;
        }
      }
    }
  }

  lemma WalkedRest(s: State, t: State, n: nat, n': nat)
    requires Ordered(s) && Numbered(s.out.list, s.out.drawn) && t.out.drawn == s.out.drawn
    requires Walked(s.out.list, t.out.list, s.wire, t.wire, n, n')
    requires FirstsInOrder(t.wire) && forall k | 0 <= k < n' :: Seen(t.wire, s.out.list[k].serial)
    ensures Ordered(t)
  {
    hide Seen, FirstsInOrder;
    var l, w, l', w' := s.out.list, s.wire, t.out.list, t.wire;
    forall i, k | 0 <= i < |w'| && 0 <= k < |l'| && Handed(w'[i]) && l'[k].serial <= w'[i].msg.serial
      ensures Seen(w', l'[k].serial)
    {
      if i < |w| {
        assert w'[i] == w[i] && l[k].serial == l'[k].serial;
        SeenMore(w, w', l[k].serial);
      } else {
        assert w'[i].msg.serial == l[n + (i - |w|)].serial && l'[k].serial == l[k].serial;
        assert k <= n + (i - |w|);
      }
    }
    forall i | 0 <= i < |w'| && Handed(w'[i]) ensures w'[i].msg.serial <= t.out.drawn {
      if i < |w| { assert w'[i] == w[i]; } else { assert w'[i].msg.serial == l[n + (i - |w|)].serial; }
    }
  }

  lemma WalkOrdered(s: State, net: Net)
    requires Plain(s.out.list) && InOrder(s.out.list) && Numbered(s.out.list, s.out.drawn) && Ordered(s)
    ensures Ordered(ReleaseMore(s, net).s)
  {
    hide Ordered, InOrder, Numbered, Walked, ReleaseToInflight, Count;
    WalkPositions(s.out.list, s.out.quota, s.wire, net);
    var t := ReleaseMore(s, net).s;
    WalkedOrdered(s, t, Count(s.out.list), Count(t.out.list));
  }

  /** Publishing. */
  lemma AppendOrdered(s: State, m: Message)
    requires Ordered(s) && m.serial == s.out.drawn + 1 && !Released(m)
    ensures Ordered(Enqueued(s, m))
  {
    hide Seen, FirstsInOrder, NextMid;
  }

  lemma PublishOrdered(s: State, qos: nat, content: Content, net: Net)
    requires Plain(s.out.list) && InOrder(s.out.list) && OutSound(s.out) && Ordered(s) && qos <= 2
    ensures Ordered(PublishOut(s, qos, content, net).s)
  {
    hide Ordered, ReleaseMore, InOrder, Numbered, AllPhased, NextMid, MidOf;
    var o := DrawMid(s.out);
    var m := Message(o.drawn, o.lastMid, qos, Invalid, false, content);
    if qos == 0 {
      SameListOrdered(s, PublishOut(s, 0, content, net).s);
    } else {
      AppendOrdered(s, m);
      AppendWindow(s.out.list, m);
      MidOfNext(s.out.drawn);
      AppendNumbered(s.out.list, s.out.drawn, m);
      WalkOrdered(Enqueued(s, m), net);
    }
  }

  /** Acknowledgements. */
  lemma CompleteOrdered(s: State, k: nat, refused: bool)
    requires Ordered(s) && k < |s.out.list|
    ensures Ordered(Complete(s, k, refused))
  {
    var l, t := s.out.list, Complete(s, k, refused);
    forall i | 0 <= i < |t.out.list|
      ensures && (exists j :: 0 <= j < |l| && l[j].serial == t.out.list[i].serial)
              && (Released(t.out.list[i]) ==> Seen(s.wire, t.out.list[i].serial))
    {
      var j := if i < k then i else i + 1;
      assert t.out.list[i] == l[j] && l[j].serial == t.out.list[i].serial;
    }
    hide Seen, FirstsInOrder;
    OtherOrdered(s, t);
  }

  lemma RoomOrdered(s: State, found: Option<nat>, refused: bool, net: Net)
    requires Plain(s.out.list) && InOrder(s.out.list) && OutSound(s.out) && Ordered(s)
    requires found.Some? ==> found.value < |s.out.list|
    ensures Ordered(CreditOut(s)) && Ordered(ReleaseMore(CreditOut(s), net).s)
    ensures found.Some? ==> Ordered(ReleaseMore(Complete(CreditOut(s), found.value, refused), net).s)
    ensures found.Some? ==> Ordered(ReleaseMore(CreditOut(Complete(s, found.value, refused)), net).s)
  {
    hide Ordered, ReleaseMore, InOrder, Numbered, AllPhased;
    var s' := CreditOut(s);
    SameListOrdered(s, s');
    WalkOrdered(s', net);
    if found.Some? {
      var k := found.value;
      CompleteOrdered(s', k, refused);
      CompleteOrdered(s, k, refused);
      SameListOrdered(Complete(s, k, refused), CreditOut(Complete(s, k, refused)));
      WithoutWindow(s.out.list, k);
      WithoutNumbered(s.out.list, k, s.out.drawn);
      WalkOrdered(Complete(s', k, refused), net);
      WalkOrdered(CreditOut(Complete(s, k, refused)), net);
    }
  }

  lemma AckOrdered(s: State, qos: nat, ack: Ack, net: Net)
    requires Plain(s.out.list) && InOrder(s.out.list) && OutSound(s.out) && Ordered(s)
    ensures Ordered(PubAckComp(s, qos, ack, net).s)
  {
    hide Ordered, ReleaseMore, Complete, OutSound, InOrder;
    RoomOrdered(s, None, false, net);
    if s.state == Active && ack.Ack? {
      match Find(s.out.list, ack.mid, qos)
      case Found(k) => RoomOrdered(s, Some(k), false, net);
      case _ =>
    }
  }

  /** A PUBREC names no message, or one that has been handed out at some time. */
  ghost predicate Prompt(s: State, e: Event) {
    match e
    case OnPubrec(Ack(mid, reason)) =>
      s.state == Active && (reason < 0x80 || s.protocol != V5) ==>
        var found := Find(s.out.list, mid, 2);
        found.Found? ==> Seen(s.wire, s.out.list[found.k].serial)
    case _ => true
  }

  lemma ReceivedOrdered(s: State, k: nat, mid: uint16, net: Net)
    requires Ordered(s) && k < |s.out.list|
    ensures var m := s.out.list[k].(state := WaitForPubcomp);
            var t := SendAck(s.(out := s.out.(list := s.out.list[k := m])), CMD_PUBREL + 2, mid, net).s;
            Ordered(t) <==> Seen(s.wire, s.out.list[k].serial)
  {
    var l := s.out.list;
    var m := l[k].(state := WaitForPubcomp);
    var t := SendAck(s.(out := s.out.(list := l[k := m])), CMD_PUBREL + 2, mid, net).s;
    assert t.out.list[k] == m && Released(m);
    if Ordered(t) {
      var i :| 0 <= i < |t.wire| && Handed(t.wire[i]) && t.wire[i].msg.serial == m.serial;
      assert s.wire[i] == t.wire[i];
    }
    if Seen(s.wire, l[k].serial) {
      forall i | 0 <= i < |t.out.list|
        ensures && (exists j :: 0 <= j < |l| && l[j].serial == t.out.list[i].serial)
                && (Released(t.out.list[i]) ==> Seen(s.wire, t.out.list[i].serial))
      {
        assert l[i].serial == t.out.list[i].serial && (i != k ==> t.out.list[i] == l[i]);
      }
      hide Seen, FirstsInOrder;
      OtherOrdered(s, t);
    }
  }

  lemma PubRecOrdered(s: State, ack: Ack, net: Net)
    requires Plain(s.out.list) && InOrder(s.out.list) && OutSound(s.out) && Ordered(s)
    ensures Ordered(PubRec(s, ack, net).s) <==> Prompt(s, OnPubrec(ack))
  {
    hide Ordered, ReleaseMore, Complete, OutSound, InOrder, Seen;
    if s.state == Active && ack.Ack? {
      if ack.reason < 0x80 || s.protocol != V5 {
        match Find(s.out.list, ack.mid, 2)
        case WrongQos =>
        case Missing => SameListOrdered(s, SendAck(s, CMD_PUBREL + 2, ack.mid, net).s);
        case Found(k) => ReceivedOrdered(s, k, ack.mid, net);
      } else {
        RoomOrdered(s, None, true, net);
        match Find(s.out.list, ack.mid, 2)
        case Found(k) => RoomOrdered(s, Some(k), true, net);
        case _ =>
      }
    }
  }

  /** Reconnection: what a reset keeps had been handed out, and only that is resent. */
  lemma ResetOrdered(s: State)
    requires Window(s) && Ordered(s)
    ensures Ordered(ReconnectReset(s))
  {
    var l, r := s.out.list, ResetOut(s.out.list, s.out.maximum).list;
    InOrderMeans(l);
    ResetWindow(l, s.out.maximum);
    InOrderMeans(r);
    ResetAlike(l, s.out.maximum);
    hide ResetOut, ResetIn, InOrder, Count, FirstsInOrder, Seen;
    forall k | 0 <= k < |r|
      ensures && (exists j :: 0 <= j < |l| && l[j].serial == r[k].serial)
              && (Released(r[k]) ==> Seen(s.wire, r[k].serial))
    {
      assert SameMessage(l[k], r[k]) && l[k].serial == r[k].serial;
    }
    OtherOrdered(s, ReconnectReset(s));
  }

  lemma {:induction false} RetryHands(l: seq<Message>, wire: seq<Sent>, net: Net)
    ensures var w := Retry(l, wire, net).wire;
            && wire <= w
            && forall i | |wire| <= i < |w| && Handed(w[i]) ::
                 exists k :: 0 <= k < |l| && Released(l[k]) && l[k].serial == w[i].msg.serial
  {
    if l != [] {
      var head, rest := l[0], l[1..];
      var wire' := wire + RetrySends(head, net(|wire|));
      RetryHands(rest, wire', net);
      var w := Retry(l, wire, net).wire;
      forall i | |wire| <= i < |w| && Handed(w[i])
        ensures exists k :: 0 <= k < |l| && Released(l[k]) && l[k].serial == w[i].msg.serial
      {
        if i < |wire'| {
          assert w[i] == wire'[i] && l[0].serial == w[i].msg.serial;
        } else {
          var k :| 0 <= k < |rest| && Released(rest[k]) && rest[k].serial == w[i].msg.serial;
          assert l[k + 1] == rest[k];
        }
      }
    }
  }

  lemma ConnackOrdered(s: State, reason: byte, max: Option<uint16>, net: Net)
    requires Ordered(s)
    ensures Ordered(Connack(s, reason, max, net).s)
  {
    var l, t := s.out.list, Connack(s, reason, max, net).s;
    RetrySame(l, s.wire, net);
    RetryHands(l, s.wire, net);
    forall k | 0 <= k < |t.out.list|
      ensures && (exists j :: 0 <= j < |l| && l[j].serial == t.out.list[k].serial)
              && (Released(t.out.list[k]) ==> Seen(s.wire, t.out.list[k].serial))
    {
      assert l[k].serial == t.out.list[k].serial && l[k].state == t.out.list[k].state;
    }
    hide Seen, FirstsInOrder, Retry;
    OtherOrdered(s, t);
  }

  lemma WindowPlain(s: State)
    requires Window(s)
    ensures Plain(s.out.list) && InOrder(s.out.list)
  {
  }

  lemma AlwaysPrompt(s: State, e: Event)
    requires !e.OnPubrec?
    ensures Prompt(s, e)
  {
  }

  /** Every fair event keeps the order exactly if it is prompt. */
  lemma OrderedExact(s: State, e: Event, net: Net)
    requires Window(s) && OutSound(s.out) && Ordered(s) && Possible(e) && Fair(s, e)
    ensures Ordered(Next(s, e, net)) <==> Prompt(s, e)
  {
    hide Ordered, Window, Fair, Prompt, Plain, OutSound, InOrder, PublishOut, PubAckComp, PubRec, Connack, ReconnectReset, Seen;
    WindowPlain(s);
    if !e.OnPubrec? { AlwaysPrompt(s, e); }
    match e
    case DoPublish(qos, content) => PublishOrdered(s, qos, content, net);
    case DoReset => ResetOrdered(s);
    case OnConnack(reason, max) => ConnackOrdered(s, reason, max, net);
    case OnPuback(a) => AckOrdered(s, 1, a, net);
    case OnPubcomp(a) => AckOrdered(s, 2, a, net);
    case OnPubrec(a) => PubRecOrdered(s, a, net);
    case _ => SameListOrdered(s, Next(s, e, net));
  }

  ghost predicate PromptRun(s: State, es: seq<Event>, net: Net)
    decreases |es|
  {
    es == [] || (Prompt(s, es[0]) && PromptRun(Next(s, es[0], net), es[1..], net))
  }

  lemma {:induction false} OrderedRun(s: State, es: seq<Event>, net: Net)
    requires Window(s) && OutSound(s.out) && OutConserved(s.out, s.notes) && Ordered(s)
    requires FairRun(s, es, net) && PromptRun(s, es, net)
    ensures Ordered(Run(s, es, net))
    decreases |es|
  {
    hide Ordered, Window, OutSound, OutConserved, Next, Prompt, Fair;
    if es != [] {
      OrderedExact(s, es[0], net);
      WindowExact(s, es[0], net);
      OutStep(s, es[0], net);
      OrderedRun(Next(s, es[0], net), es[1..], net);
    }
  }

  // ---------- from the start ----------

  lemma {:induction false} OfflineOrdered(s: State, es: seq<Event>, net: Net)
    requires AllFailed(s.wire, Run(s, es, net).wire, net)
    requires forall e | e in es :: Offline(e)
    requires Plain(s.out.list) && Count(s.out.list) == |s.out.list| && s.out.quota > 0
    requires OutSound(s.out) && OutConserved(s.out, s.notes) && Ordered(s)
    ensures var t := Run(s, es, net); Ordered(t) && OutSound(t.out) && OutConserved(t.out, t.notes)
    decreases |es|
  {
    hide Ordered, OutSound, OutConserved, PublishOut;
    if es != [] {
      assert es[0] in es && forall e | e in es[1..] :: e in es;
      var t := Next(s, es[0], net);
      OfflineGrows(s, [es[0]], net);
      OfflineGrows(t, es[1..], net);
      assert Run(s, [es[0]], net) == t by { assert [es[0]][1..] == []; }
      OfflineRun(s, [es[0]], net);
      AllReleased(s.out.list);
      OutStep(s, es[0], net);
      if es[0].DoPublish? {
        PublishOrdered(s, es[0].outQos, es[0].outContent, net);
      } else {
        SameListOrdered(s, t);
      }
      OfflineOrdered(t, es[1..], net);
    }
  }

  /** From the start on, over offline publishes, any number of connections and any
      pattern of failing sends, as long as the broker sends PUBREC only for what it
      has been sent: first hand-outs come in the order of publication. */
  lemma OrderAlways(protocol: Protocol, outMax: nat, inMax: nat, before: seq<Event>, after: seq<Event>, net: Net)
    requires outMax >= 1
    requires forall e | e in before :: Offline(e)
    requires AllFailed([], Run(Start(protocol, outMax, inMax), before, net).wire, net)
    requires var s := ConnectInit(Run(Start(protocol, outMax, inMax), before, net)); FairRun(s, after, net) && PromptRun(s, after, net)
    ensures FirstsInOrder(Run(ConnectInit(Run(Start(protocol, outMax, inMax), before, net)), after, net).wire)
  {
    hide Window, FairRun, PromptRun, AllFailed, FirstsInOrder, Run, OutSound, OutConserved;
    var s0 := Start(protocol, outMax, inMax);
    StartOrdered(protocol, outMax, inMax);
    OfflineOrdered(s0, before, net);
    WindowStarts(protocol, outMax, inMax, before, net);
    var s := Run(s0, before, net);
    InitOrdered(s);
    OrderedRun(ConnectInit(s), after, net);
  }

  lemma StartOrdered(protocol: Protocol, outMax: nat, inMax: nat)
    ensures var s := Start(protocol, outMax, inMax); Ordered(s) && OutSound(s.out) && OutConserved(s.out, s.notes)
  {
    StartSound(protocol, outMax, inMax);
  }

  lemma InitOrdered(s: State)
    requires Ordered(s) && OutSound(s.out) && OutConserved(s.out, s.notes)
    ensures var t := ConnectInit(s); Ordered(t) && OutSound(t.out) && OutConserved(t.out, t.notes) && t.wire == s.wire
  {
    hide Tally, Serials, AllPhased, Numbered, Seen, FirstsInOrder;
  }
  // ---------- an input ----------

  /** The window is full; then a PUBREC for message 2, a PUBACK for an unknown
      identifier, a reconnection, and another publish. */
  function Overtaking(content: Content): seq<Event> {
    Filling(content) + [OnPubrec(Ack(2, 0))] + [OnPuback(Ack(9, 0))] + [DoReset] + [OnConnack(0, None)] + [DoPublish(1, content)]
  }

  function P1(content: Content): Message { First(1, content) }
  function P2(state: MsgState, content: Content): Message { Out(2, 2, 2, state, content) }
  function P3(state: MsgState, content: Content): Message { Out(3, 3, 2, state, content) }

  /** The packets up to the reset. */
  function Early(content: Content): seq<Sent> {
    [SentPublish(P1(content), SUCCESS), SentAck(CMD_PUBREL + 2, 2, SUCCESS), SentPublish(P3(WaitForPubrec, content), SUCCESS)]
  }

  lemma TwoReceived(content: Content, net: Net)
    requires forall n: nat :: net(n) == SUCCESS
    ensures var s := Next(FullWindow(content), OnPubrec(Ack(2, 0)), net);
            && s.out.list == [P1(content), P2(WaitForPubcomp, content), P3(Invalid, content)]
            && s.out.maximum == 1 && s.out.quota == 0 && s.state == Active && s.wire == Early(content)[..2]
  {
    var l := FullWindow(content).out.list;
    assert l[1..] == [l[1], l[2]];
    assert IndexOf(l, 2) == Some(1);
    hide IndexOf;
  }

  lemma UntilReset(content: Content, net: Net)
    requires forall n: nat :: net(n) == SUCCESS
    ensures var s := Next(Next(FullWindow(content), OnPubrec(Ack(2, 0)), net), OnPuback(Ack(9, 0)), net);
            && s.out.list == [P1(content), P2(WaitForPubcomp, content), P3(WaitForPubrec, content)]
            && s.out.maximum == 1 && s.wire == Early(content)
  {
    hide PubRec;
    TwoReceived(content, net);
    var s := Next(FullWindow(content), OnPubrec(Ack(2, 0)), net);
    var l := s.out.list;
    assert l[1..] == [l[1], l[2]] && l[1..][1..] == [l[2]] && [l[2]][1..] == [];
    assert IndexOf(l, 9) == None;
    hide IndexOf;
    WalkLast(l[2], s.wire, net);
    assert ReleaseToInflight(l[1..], 1, s.wire, net).list == [l[1], P3(WaitForPubrec, content)];
    assert Early(content) == Early(content)[..2] + [SentPublish(P3(WaitForPubrec, content), SUCCESS)];
  }

  lemma WalkLast(m: Message, wire: seq<Sent>, net: Net)
    requires m.qos == 2 && m.state == Invalid && net(|wire|) == SUCCESS
    ensures ReleaseToInflight([m], 1, wire, net) == Walk([Release(m)], 0, wire + [SentPublish(Release(m), SUCCESS)], SUCCESS)
  {
    assert [m][1..] == [] && [Release(m)] + [] == [Release(m)];
  }

  lemma AfterReset(s: State, content: Content, net: Net)
    requires forall n: nat :: net(n) == SUCCESS
    requires s.out.list == [P1(content), P2(WaitForPubcomp, content), P3(WaitForPubrec, content)]
    requires s.out.maximum == 1 && s.wire == Early(content)
    ensures var w := Next(Next(Next(s, DoReset, net), OnConnack(0, None), net), DoPublish(1, content), net).wire;
            |w| == 5 && w[..3] == Early(content) && Handed(w[3]) && w[3].msg.serial == 1 && Handed(w[4]) && w[4].msg.serial == 2
  {
    var l := s.out.list;
    var r := ResetOut(l, 1).list;
    assert l[1..] == [l[1], l[2]] && l[1..][1..] == [l[2]] && [l[2]][1..] == [];
    assert ResetOut(l[1..], 0).list == [P2(Invalid, content), P3(Invalid, content)] by {
      assert ResetOut([l[2]], 0).list == [P3(Invalid, content)];
    }
    var p := P1(content).(state := PublishQos1);
    assert r == [p, P2(Invalid, content), P3(Invalid, content)];
    Resent(p, content, s.wire, net);
    var t := Next(Next(s, DoReset, net), OnConnack(0, None), net);
    assert t.out.list == [p.(dup := true), P2(Invalid, content), P3(Invalid, content)];
    assert t.wire == s.wire + [SentPublish(p.(dup := true), SUCCESS)] && t.out.quota == 1;
    hide ResetOut, ResetIn, Retry;
    SecondNext(t, content, net);
  }

  lemma Resent(p: Message, content: Content, wire: seq<Sent>, net: Net)
    requires p.state == PublishQos1 && net(|wire|) == SUCCESS
    ensures var w := Retry([p, P2(Invalid, content), P3(Invalid, content)], wire, net);
            && w.list == [p.(dup := true), P2(Invalid, content), P3(Invalid, content)]
            && w.wire == wire + [SentPublish(p.(dup := true), SUCCESS)]
  {
    var l := [p, P2(Invalid, content), P3(Invalid, content)];
    assert l[1..] == [l[1], l[2]] && l[1..][1..] == [l[2]] && [l[2]][1..] == [];
    var w1 := wire + [SentPublish(p.(dup := true), SUCCESS)];
    assert w1 + [] == w1;
    assert Retry([l[2]], w1, net) == RetryWalk([l[2]], w1);
    assert Retry([l[1], l[2]], w1, net) == RetryWalk([l[1], l[2]], w1);
  }

  lemma SecondNext(t: State, content: Content, net: Net)
    requires |t.out.list| == 3 && Released(t.out.list[0]) && t.out.list[1] == P2(Invalid, content)
    requires t.out.quota == 1 && net(|t.wire|) == SUCCESS
    ensures var u := Next(t, DoPublish(1, content), net);
            |u.wire| == |t.wire| + 1 && t.wire <= u.wire && u.wire[|t.wire|] == SentPublish(P2(WaitForPubrec, content), SUCCESS)
  {
    var o := DrawMid(t.out);
    var l := t.out.list + [Message(o.drawn, o.lastMid, 1, Invalid, false, content)];
    assert l[1..][0] == P2(Invalid, content);
    var wire' := t.wire + [SentPublish(P2(WaitForPubrec, content), SUCCESS)];
    assert ReleaseToInflight(l[1..], 1, t.wire, net).wire == wire';
    assert ReleaseToInflight(l, 1, t.wire, net).wire == wire';
  }

  /** A PUBREC for the next message due, which has not been sent, is fair but not
      prompt. Message 3 then goes out before message 2; the reset takes both back,
      and message 2 is sent for the first time behind message 3. */
  lemma OvertakenByThree(content: Content, net: Net)
    requires forall n: nat :: net(n) == SUCCESS
    ensures var s, e := Run(Start(V5, 1, 20), Filling(content), net), OnPubrec(Ack(2, 0));
            Window(s) && Fair(s, e) && !Prompt(s, e)
    ensures !FirstsInOrder(Run(Start(V5, 1, 20), Overtaking(content), net).wire)
  {
    hide Start, Run, Filling, Next, Window, Early;
    var s0, e0 := Start(V5, 1, 20), Filling(content);
    var e1 := e0 + [OnPubrec(Ack(2, 0))];
    var e2 := e1 + [OnPuback(Ack(9, 0))];
    var e3 := e2 + [DoReset];
    var e4 := e3 + [OnConnack(0, None)];
    FullWindowReached(content, net);
    FullWindowCounts(content);
    RunMore(s0, e0, OnPubrec(Ack(2, 0)), net);
    RunMore(s0, e1, OnPuback(Ack(9, 0)), net);
    RunMore(s0, e2, DoReset, net);
    RunMore(s0, e3, OnConnack(0, None), net);
    RunMore(s0, e4, DoPublish(1, content), net);
    UntilReset(content, net);
    AfterReset(Run(s0, e2, net), content, net);
    NotSent(content);
    LateSecond(content, Run(s0, Overtaking(content), net).wire);
  }

  lemma NotSent(content: Content)
    ensures Fair(FullWindow(content), OnPubrec(Ack(2, 0))) && !Prompt(FullWindow(content), OnPubrec(Ack(2, 0)))
  {
    var l := FullWindow(content).out.list;
    FullWindowCounts(content);
    assert l[1..] == [l[1], l[2]];
    assert IndexOf(l, 2) == Some(1);
  }

  lemma LateSecond(content: Content, w: seq<Sent>)
    requires |w| == 5 && w[..3] == Early(content) && Handed(w[3]) && w[3].msg.serial == 1 && Handed(w[4]) && w[4].msg.serial == 2
    ensures !FirstsInOrder(w)
  {
    assert w[0] == w[..3][0] && w[1] == w[..3][1] && w[2] == w[..3][2];
    assert !Seen(w[..4], 2);
    assert Handed(w[2]) && w[2].msg.serial == 3;
  }
}
