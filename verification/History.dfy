/**
 * What holds in every state of every run, without any condition on the broker
 * or on the network: no message is lost or reported twice, identifiers, phases,
 * list lengths, and the receive quota.
 */
module History {
  import opened Mqtt
  import opened Inflight
  import opened Delivery

  // ---------- counting what happened ----------

  datatype Kind = IsAppended | IsCompleted | IsRefused | IsStored | IsDelivered | IsDropped

  /** The serial number that a note of this kind is about. */
  function Pick(k: Kind, n: Note): multiset<nat> {
    match (k, n)
    case (IsAppended, Appended(serial)) => multiset{serial}
    case (IsCompleted, Completed(serial, _)) => multiset{serial}
    case (IsRefused, Refused(serial, _)) => multiset{serial}
    case (IsStored, Stored(serial)) => multiset{serial}
    case (IsDelivered, Delivered(m)) => multiset{m.serial}
    case (IsDropped, Dropped(serial)) => multiset{serial}
    case _ => multiset{}
  }

  /** How often each message was appended, completed, stored, ... */
  function Tally(k: Kind, notes: seq<Note>): multiset<nat> {
    if notes == [] then multiset{} else Tally(k, notes[..|notes| - 1]) + Pick(k, notes[|notes| - 1])
  }

  function Serials(l: seq<Message>): multiset<nat> {
    if l == [] then multiset{} else multiset{l[0].serial} + Serials(l[1..])
  }

  lemma TallyNote(k: Kind, notes: seq<Note>, n: Note)
    ensures Tally(k, notes + [n]) == Tally(k, notes) + Pick(k, n)
  {
    assert (notes + [n])[..|notes|] == notes;
  }

  /** What one more note does to every tally. */
  lemma Noted(notes: seq<Note>, n: Note)
    ensures Tally(IsAppended, notes + [n]) == Tally(IsAppended, notes) + Pick(IsAppended, n)
    ensures Tally(IsCompleted, notes + [n]) == Tally(IsCompleted, notes) + Pick(IsCompleted, n)
    ensures Tally(IsRefused, notes + [n]) == Tally(IsRefused, notes) + Pick(IsRefused, n)
    ensures Tally(IsStored, notes + [n]) == Tally(IsStored, notes) + Pick(IsStored, n)
    ensures Tally(IsDelivered, notes + [n]) == Tally(IsDelivered, notes) + Pick(IsDelivered, n)
    ensures Tally(IsDropped, notes + [n]) == Tally(IsDropped, notes) + Pick(IsDropped, n)
  {
    TallyNote(IsAppended, notes, n);
    TallyNote(IsCompleted, notes, n);
    TallyNote(IsRefused, notes, n);
    TallyNote(IsStored, notes, n);
    TallyNote(IsDelivered, notes, n);
    TallyNote(IsDropped, notes, n);
  }

  lemma {:induction false} SerialsConcat(a: seq<Message>, b: seq<Message>)
    ensures Serials(a + b) == Serials(a) + Serials(b)
  {
    if a != [] {
      assert (a + b)[1..] == a[1..] + b;
      SerialsConcat(a[1..], b);
    } else {
      assert a + b == b;
    }
  }

  lemma SerialsOne(m: Message)
    ensures Serials([m]) == multiset{m.serial}
  {
    assert [m][1..] == [];
  }

  lemma SerialsWithout(l: seq<Message>, k: nat)
    requires k < |l|
    ensures Serials(l) == Serials(Without(l, k)) + multiset{l[k].serial}
  {
    hide Serials;
    var before, after := l[..k], l[k + 1..];
    SplitAt(l, k);
    SerialsConcat(before, [l[k]] + after);
    SerialsConcat([l[k]], after);
    SerialsConcat(before, after);
    SerialsOne(l[k]);
  }

  // ---------- what never changes about a message ----------

  /** The same message, but for its state and its duplicate flag. */
  predicate SameMessage(m: Message, m': Message) { m' == m.(state := m'.state, dup := m'.dup) }

  predicate Alike(l: seq<Message>, l': seq<Message>) {
    |l| == |l'| && forall i | 0 <= i < |l| :: SameMessage(l[i], l'[i])
  }

  /** QoS 1 and QoS 2 messages each go through their own states. */
  predicate Phased(m: Message) {
    match m.qos
    case 1 => m.state in {Invalid, PublishQos1, WaitForPuback}
    case 2 => m.state in {Invalid, PublishQos2, WaitForPubrec, ResendPubrel, WaitForPubcomp}
    case _ => false
  }

  predicate AllPhased(l: seq<Message>) { forall i | 0 <= i < |l| :: Phased(l[i]) }

  lemma AlikeCons(m: Message, l: seq<Message>, m': Message, l': seq<Message>)
    requires SameMessage(m, m') && Alike(l, l')
    ensures Alike([m] + l, [m'] + l')
    ensures Phased(m') && AllPhased(l') ==> AllPhased([m'] + l')
  {
  }

  lemma AlikeSame(l: seq<Message>)
    ensures Alike(l, l)
  {
  }

  lemma {:induction false} ReleaseAlike(l: seq<Message>, quota: nat, wire: seq<Sent>, net: Net)
    ensures var w := ReleaseToInflight(l, quota, wire, net);
            Alike(l, w.list) && (AllPhased(l) ==> AllPhased(w.list))
  {
    if l != [] && quota > 0 {
      var head, rest := l[0], l[1..];
      assert l == [head] + rest;
      assert AllPhased(l) ==> AllPhased(rest);
      var m := if head.qos > 0 && head.state == Invalid then Release(head) else head;
      var rc := net(|wire|);
      if head.qos > 0 && head.state == Invalid && rc != SUCCESS {
        AlikeSame(rest);
        AlikeCons(head, rest, m, rest);
      } else {
        var quota', wire' := if m == head then quota else quota - 1, if m == head then wire else wire + [SentPublish(m, rc)];
        if head.qos > 0 && head.state == Invalid {
          ReleaseAlike(rest, Decrement(quota), wire + [SentPublish(m, rc)], net);
          AlikeCons(head, rest, m, ReleaseToInflight(rest, Decrement(quota), wire + [SentPublish(m, rc)], net).list);
        } else {
          ReleaseAlike(rest, quota, wire, net);
          AlikeCons(head, rest, m, ReleaseToInflight(rest, quota, wire, net).list);
        }
      }
    } else {
      AlikeSame(l);
    }
  }

  lemma {:induction false} ResetAlike(l: seq<Message>, quota: nat)
    ensures Alike(l, ResetOut(l, quota).list) && (AllPhased(l) ==> AllPhased(ResetOut(l, quota).list))
  {
    if l != [] {
      var head, rest := l[0], l[1..];
      assert l == [head] + rest;
      assert AllPhased(l) ==> AllPhased(rest);
      var quota' := if quota != 0 then Decrement(quota) else quota;
      var m := if quota != 0 then ResetState(head) else head.(state := Invalid);
      ResetAlike(rest, quota');
      AlikeCons(head, rest, m, ResetOut(rest, quota').list);
    }
  }

  lemma {:induction false} RetryAlike(l: seq<Message>, wire: seq<Sent>, net: Net)
    ensures Alike(l, Retry(l, wire, net).list) && (AllPhased(l) ==> AllPhased(Retry(l, wire, net).list))
  {
    if l != [] {
      var head, rest := l[0], l[1..];
      assert l == [head] + rest;
      assert AllPhased(l) ==> AllPhased(rest);
      var wire' := wire + RetrySends(head, net(|wire|));
      RetryAlike(rest, wire', net);
      AlikeCons(head, rest, RetryMessage(head), Retry(rest, wire', net).list);
    }
  }

  lemma {:induction false} AlikeSerials(l: seq<Message>, l': seq<Message>)
    requires Alike(l, l')
    ensures Serials(l') == Serials(l)
  {
    if l != [] {
      assert SameMessage(l[0], l'[0]);
      assert forall i | 0 <= i < |l[1..]| :: l[1..][i] == l[i + 1] && l'[1..][i] == l'[i + 1];
      AlikeSerials(l[1..], l'[1..]);
    }
  }

  // ---------- packet identifiers ----------

  const MIDS: nat := 65535

  /** The n-th identifier drawn. */
  function MidOf(n: nat): uint16 { if n == 0 then 0 else (n - 1) % MIDS + 1 }

  /** The generator cycles through 1..65535 in order. */
  lemma MidOfNext(n: nat)
    ensures NextMid(MidOf(n)) == MidOf(n + 1)
  {
    if n > 0 {
      var r := (n - 1) % MIDS;
      assert n - 1 == (n - 1) / MIDS * MIDS + r;
      if r == MIDS - 1 {
        assert n == ((n - 1) / MIDS + 1) * MIDS;
        ModExact((n - 1) / MIDS + 1, 0, n);
      } else {
        ModExact((n - 1) / MIDS, r + 1, n);
      }
    }
  }

  lemma ModExact(q: nat, r: nat, n: nat)
    requires r < MIDS && n == q * MIDS + r
    ensures n % MIDS == r
  {
  }

  /** Within any 65535 consecutive draws every identifier occurs exactly once. */
  lemma MidWindow(a: nat, mid: uint16) returns (n: nat)
    requires mid != 0
    ensures a < n <= a + MIDS && MidOf(n) == mid
    ensures forall k | a < k <= a + MIDS && MidOf(k) == mid :: k == n
  {
    var q, r := a / MIDS, a % MIDS;
    n := if mid as int > r then q * MIDS + mid else (q + 1) * MIDS + mid;
    ModExact(if mid as int > r then q else q + 1, mid - 1, n - 1);
    forall k | a < k <= a + MIDS && MidOf(k) == mid ensures k == n {
      MidOfInjective(a, k, n);
    }
  }

  lemma MidOfInjective(a: nat, k: nat, n: nat)
    requires a < k <= a + MIDS && a < n <= a + MIDS && MidOf(k) == MidOf(n)
    ensures k == n
  {
    var q, p := (k - 1) / MIDS, (n - 1) / MIDS;
    assert k - 1 == q * MIDS + (k - 1) % MIDS && n - 1 == p * MIDS + (n - 1) % MIDS;
    assert k - n == (q - p) * MIDS;
  }

  /** Every message of the list carries the identifier of its draw, oldest first. */
  predicate Numbered(l: seq<Message>, drawn: nat) {
    && (forall i | 0 <= i < |l| :: 1 <= l[i].serial <= drawn && l[i].mid == MidOf(l[i].serial))
    && (forall i, j | 0 <= i < j < |l| :: l[i].serial < l[j].serial)
  }

  /** Identifiers in the list are pairwise distinct while fewer than 65535 have
      been drawn since the oldest. */
  lemma DistinctMids(l: seq<Message>, drawn: nat, i: nat, j: nat)
    requires Numbered(l, drawn) && i < j < |l|
    requires drawn - l[0].serial < MIDS
    ensures l[i].mid != l[j].mid
  {
    if l[i].mid == l[j].mid {
      MidOfInjective(l[0].serial - 1, l[i].serial, l[j].serial);
    }
  }

  lemma AlikeNumbered(l: seq<Message>, l': seq<Message>, drawn: nat)
    requires Alike(l, l') && Numbered(l, drawn)
    ensures Numbered(l', drawn)
  {
    assert forall i | 0 <= i < |l| :: SameMessage(l[i], l'[i]);
  }

  lemma WithoutNumbered(l: seq<Message>, k: nat, drawn: nat)
    requires k < |l| && Numbered(l, drawn)
    ensures Numbered(Without(l, k), drawn)
    ensures AllPhased(l) ==> AllPhased(Without(l, k))
  {
    var w := Without(l, k);
    forall i | 0 <= i < |w| ensures w[i] == l[if i < k then i else i + 1] {}
  }

  lemma AppendNumbered(l: seq<Message>, drawn: nat, m: Message)
    requires Numbered(l, drawn) && m.serial == drawn + 1 && m.mid == MidOf(drawn + 1)
    ensures Numbered(l + [m], drawn + 1)
    ensures AllPhased(l) && Phased(m) ==> AllPhased(l + [m])
  {
  }

  // ---------- the outbound side ----------

  /** Identifiers, phases and length of the outbound list. */
  predicate OutSound(o: Outbound) {
    && o.queueLen == |o.list|
    && AllPhased(o.list)
    && Numbered(o.list, o.drawn)
    && o.lastMid == MidOf(o.drawn)
  }

  /** Nothing lost, nothing twice: what was appended is in the list, or has been
      completed, or has been refused. */
  ghost predicate OutConserved(o: Outbound, notes: seq<Note>) {
    && Tally(IsAppended, notes) == Serials(o.list) + Tally(IsCompleted, notes) + Tally(IsRefused, notes)
    && forall n :: Tally(IsAppended, notes)[n] <= (if 1 <= n <= o.drawn then 1 else 0)
  }

  lemma ReleaseMoreOut(s: State, net: Net)
    requires OutSound(s.out) && OutConserved(s.out, s.notes)
    ensures var t := ReleaseMore(s, net).s; OutSound(t.out) && OutConserved(t.out, t.notes)
  {
    hide Tally, Serials, AllPhased, Numbered, Alike;
    var w := ReleaseToInflight(s.out.list, s.out.quota, s.wire, net);
    ReleaseAlike(s.out.list, s.out.quota, s.wire, net);
    AlikeNumbered(s.out.list, w.list, s.out.drawn);
    AlikeSerials(s.out.list, w.list);
  }

  /** A message with a new identifier at the end of the list. */
  lemma AppendSound(s: State, qos: nat, content: Content)
    requires OutSound(s.out) && OutConserved(s.out, s.notes) && (qos == 1 || qos == 2)
    ensures var o := DrawMid(s.out);
            var m := Message(o.drawn, o.lastMid, qos, Invalid, false, content);
            var o' := o.(list := o.list + [m], queueLen := o.queueLen + 1);
            OutSound(o') && OutConserved(o', s.notes + [Appended(m.serial)])
  {
    hide Tally, Serials, AllPhased, Numbered, MidOf, NextMid;
    var o := DrawMid(s.out);
    MidOfNext(s.out.drawn);
    var m := Message(o.drawn, o.lastMid, qos, Invalid, false, content);
    AppendNumbered(s.out.list, s.out.drawn, m);
    SerialsConcat(o.list, [m]);
    SerialsOne(m);
    Noted(s.notes, Appended(m.serial));
  }

  lemma PublishOutSound(s: State, qos: nat, content: Content, net: Net)
    requires OutSound(s.out) && OutConserved(s.out, s.notes) && qos <= 2
    ensures var t := PublishOut(s, qos, content, net).s; OutSound(t.out) && OutConserved(t.out, t.notes)
  {
    hide OutSound, OutConserved, ReleaseMore;
    if qos == 0 {
      TakeMidSound(s);
    } else {
      var o := DrawMid(s.out);
      var m := Message(o.drawn, o.lastMid, qos, Invalid, false, content);
      AppendSound(s, qos, content);
      ReleaseMoreOut(s.(out := o.(list := o.list + [m], queueLen := o.queueLen + 1), notes := s.notes + [Appended(m.serial)]), net);
    }
  }

  lemma CompleteSound(s: State, k: nat, refused: bool)
    requires OutSound(s.out) && OutConserved(s.out, s.notes) && k < |s.out.list|
    ensures var t := Complete(s, k, refused); OutSound(t.out) && OutConserved(t.out, t.notes)
  {
    hide Tally, Serials, AllPhased, Numbered, Alike;
    var m := s.out.list[k];
    WithoutNumbered(s.out.list, k, s.out.drawn);
    SerialsWithout(s.out.list, k);
    Noted(s.notes, Ending(m, refused));
  }

  lemma PubAckCompSound(s: State, qos: nat, ack: Ack, net: Net)
    requires OutSound(s.out) && OutConserved(s.out, s.notes)
    ensures var t := PubAckComp(s, qos, ack, net).s; OutSound(t.out) && OutConserved(t.out, t.notes)
  {
    hide OutSound, OutConserved, ReleaseMore, Complete;
    CreditOutSound(s);
    if s.state == Active && ack.Ack? {
      var s' := CreditOut(s);
      match Find(s'.out.list, ack.mid, qos)
      case WrongQos =>
      case Missing => ReleaseMoreOut(s', net);
      case Found(k) =>
        CompleteSound(s', k, false);
        ReleaseMoreOut(Complete(s', k, false), net);
    }
  }

  lemma ReceivedSound(s: State, k: nat)
    requires OutSound(s.out) && OutConserved(s.out, s.notes) && k < |s.out.list| && s.out.list[k].qos == 2
    ensures var o := s.out.(list := s.out.list[k := s.out.list[k].(state := WaitForPubcomp)]);
            OutSound(o) && OutConserved(o, s.notes)
  {
    var l := s.out.list;
    var l' := l[k := l[k].(state := WaitForPubcomp)];
    assert AllPhased(l');
    assert Alike(l, l');
    hide Tally, Serials, AllPhased, Numbered, Alike;
    AlikeNumbered(l, l', s.out.drawn);
    AlikeSerials(l, l');
  }

  lemma PubRecSound(s: State, ack: Ack, net: Net)
    requires OutSound(s.out) && OutConserved(s.out, s.notes)
    ensures var t := PubRec(s, ack, net).s; OutSound(t.out) && OutConserved(t.out, t.notes)
  {
    hide OutSound, OutConserved, ReleaseMore, Complete;
    if s.state == Active && ack.Ack? {
      CreditOutSound(s);
      match Find(s.out.list, ack.mid, 2)
      case Found(k) =>
        ReceivedSound(s, k);
        CompleteSound(s, k, true);
        CreditOutSound(Complete(s, k, true));
        ReleaseMoreOut(CreditOut(Complete(s, k, true)), net);
      case _ =>
        ReleaseMoreOut(CreditOut(s), net);
    }
  }

  lemma CreditOutSound(s: State)
    requires OutSound(s.out) && OutConserved(s.out, s.notes)
    ensures var t := CreditOut(s); OutSound(t.out) && OutConserved(t.out, t.notes)
  {
  }

  lemma InboundNotesIgnored(notes: seq<Note>, n: Note)
    requires !n.Appended? && !n.Completed? && !n.Refused?
    ensures Tally(IsAppended, notes + [n]) == Tally(IsAppended, notes)
    ensures Tally(IsCompleted, notes + [n]) == Tally(IsCompleted, notes) && Tally(IsRefused, notes + [n]) == Tally(IsRefused, notes)
  {
    hide Tally;
    Noted(notes, n);
  }

  lemma TakeMidSound(s: State)
    requires OutSound(s.out) && OutConserved(s.out, s.notes)
    ensures var t := TakeMid(s); OutSound(t.out) && OutConserved(t.out, t.notes)
  {
    hide Tally, Serials, AllPhased, MidOf, NextMid;
    MidOfNext(s.out.drawn);
  }

  lemma OutStep(s: State, e: Event, net: Net)
    requires OutSound(s.out) && OutConserved(s.out, s.notes) && Possible(e)
    ensures var t := Next(s, e, net); OutSound(t.out) && OutConserved(t.out, t.notes)
  {
    hide Tally, Serials, AllPhased, Numbered, Alike, PublishOut, PubAckComp, PubRec, PublishIn, PubRel, MidOf, NextMid;
    match e
    case DoPublish(qos, content) => PublishOutSound(s, qos, content, net);
    case DoTakeMid => TakeMidSound(s);
    case DoConnectInit =>
    case DoReset =>
      ResetAlike(s.out.list, s.out.maximum);
      AlikeNumbered(s.out.list, ResetOut(s.out.list, s.out.maximum).list, s.out.drawn);
      AlikeSerials(s.out.list, ResetOut(s.out.list, s.out.maximum).list);
    case DoSetReceiveMaximum(_) =>
    case DoSetState(_) =>
    case OnConnack(_, _) =>
      RetryAlike(s.out.list, s.wire, net);
      AlikeNumbered(s.out.list, Retry(s.out.list, s.wire, net).list, s.out.drawn);
      AlikeSerials(s.out.list, Retry(s.out.list, s.wire, net).list);
    case OnPuback(a) => PubAckCompSound(s, 1, a, net);
    case OnPubcomp(a) => PubAckCompSound(s, 2, a, net);
    case OnPubrec(a) => PubRecSound(s, a, net);
    case OnPublish(p) => PublishInNotes(s, p, net);
    case OnPubrel(flags, a) => PubRelNotes(s, flags, a, net);
  }

  lemma PublishInNotes(s: State, p: Publish, net: Net)
    ensures var t := PublishIn(s, p, net).s;
            && t.out == s.out
            && Tally(IsAppended, t.notes) == Tally(IsAppended, s.notes)
            && Tally(IsCompleted, t.notes) == Tally(IsCompleted, s.notes)
            && Tally(IsRefused, t.notes) == Tally(IsRefused, s.notes)
  {
    hide Tally, Pick;
    if p.Publish? {
      InboundNotesIgnored(s.notes, DeliveredAtOnce(p.qos, p.content));
      InboundNotesIgnored(s.notes, Stored(s.inn.stored + 1));
    }
  }

  lemma PubRelNotes(s: State, flags: byte, ack: Ack, net: Net)
    ensures var t := PubRel(s, flags, ack, net).s;
            && t.out == s.out
            && Tally(IsAppended, t.notes) == Tally(IsAppended, s.notes)
            && Tally(IsCompleted, t.notes) == Tally(IsCompleted, s.notes)
            && Tally(IsRefused, t.notes) == Tally(IsRefused, s.notes)
  {
    hide Tally, Pick;
    if ack.Ack? {
      match Find(s.inn.list, ack.mid, 2)
      case Found(k) =>
        InboundNotesIgnored(s.notes, Dropped(s.inn.list[k].serial));
        InboundNotesIgnored(s.notes, Delivered(s.inn.list[k]));
      case _ =>
    }
  }

  // ---------- the inbound side ----------

  predicate AllHeld(l: seq<Message>) { forall k | 0 <= k < |l| :: l[k].qos == 2 && l[k].state == WaitForPubrel }

  lemma AllHeldWithout(l: seq<Message>, k: nat)
    requires AllHeld(l) && k < |l|
    ensures AllHeld(Without(l, k)) && |Without(l, k)| == |l| - 1
  {
    forall i | 0 <= i < |Without(l, k)| ensures Without(l, k)[i] == l[if i < k then i else i + 1] {}
  }

  /** Only QoS 2 entries waiting for PUBREL, and a true length. */
  predicate InSound(i: Inbound) { i.queueLen == |i.list| && AllHeld(i.list) }

  /** A receive quota that is short by no more than the entries held. */
  predicate QuotaSound(i: Inbound) { i.quota <= i.maximum <= i.quota + |i.list| }

  /** What was stored is still held, was delivered, or was dropped because
      PUBCOMP could not be sent. */
  ghost predicate InConserved(i: Inbound, notes: seq<Note>) {
    && Tally(IsStored, notes) == Serials(i.list) + Tally(IsDelivered, notes) + Tally(IsDropped, notes)
    && forall n :: Tally(IsStored, notes)[n] <= (if 1 <= n <= i.stored then 1 else 0)
  }

  lemma OutboundNotesIgnored(notes: seq<Note>, n: Note)
    requires !n.Stored? && !n.Delivered? && !n.Dropped?
    ensures Tally(IsStored, notes + [n]) == Tally(IsStored, notes)
    ensures Tally(IsDelivered, notes + [n]) == Tally(IsDelivered, notes)
    ensures Tally(IsDropped, notes + [n]) == Tally(IsDropped, notes)
  {
    hide Tally;
    Noted(notes, n);
  }

  /** An entry stored: charged to the quota and kept at the end. */
  lemma StoreSound(i: Inbound, notes: seq<Note>, m: Message)
    requires InSound(i) && InConserved(i, notes)
    requires m.serial == i.stored + 1 && m.qos == 2 && m.state == WaitForPubrel
    ensures var i' := Inbound(i.list + [m], i.queueLen + 1, Decrement(i.quota), i.maximum, i.stored + 1);
            && InSound(i') && InConserved(i', notes + [Stored(m.serial)])
            && (QuotaSound(i) ==> QuotaSound(i'))
  {
    hide Tally, Serials;
    SerialsConcat(i.list, [m]);
    SerialsOne(m);
    Noted(notes, Stored(m.serial));
  }

  lemma PublishInSound(s: State, p: Publish, net: Net)
    requires InSound(s.inn) && InConserved(s.inn, s.notes)
    ensures var t := PublishIn(s, p, net).s; InSound(t.inn) && InConserved(t.inn, t.notes)
    ensures QuotaSound(s.inn) ==> QuotaSound(PublishIn(s, p, net).s.inn)
  {
    hide Tally, Serials, AllHeld;
    match p
    case BadTopic(_) =>
    case BadRest(_, _) =>
    case Publish(qos, mid, dup, content) =>
      if qos == 2 {
        hide InSound, InConserved, QuotaSound;
        StoreSound(s.inn, s.notes, Message(s.inn.stored + 1, mid, 2, WaitForPubrel, dup, content));
      } else {
        OutboundNotesIgnored(s.notes, DeliveredAtOnce(qos, content));
      }
  }

  lemma TakeOutSound(s: State, k: nat, note: Note)
    requires InConserved(s.inn, s.notes) && k < |s.inn.list|
    requires note == Delivered(s.inn.list[k]) || note == Dropped(s.inn.list[k].serial)
    ensures var t := TakeOut(s, k, note); InConserved(t.inn, t.notes)
  {
    hide Tally, Serials, Without;
    SerialsWithout(s.inn.list, k);
    Noted(s.notes, note);
  }

  lemma PubRelSound(s: State, flags: byte, ack: Ack, net: Net)
    requires InSound(s.inn) && InConserved(s.inn, s.notes)
    ensures var t := PubRel(s, flags, ack, net).s; InSound(t.inn) && InConserved(t.inn, t.notes)
    ensures QuotaSound(s.inn) ==> QuotaSound(PubRel(s, flags, ack, net).s.inn)
  {
    hide Tally, Serials, Without, AllHeld;
    if ack.Ack? && s.state == Active && !(s.protocol != V31 && flags != 2) {
      var a := SendAck(CreditIn(s), CMD_PUBCOMP, ack.mid, net);
      match Find(a.s.inn.list, ack.mid, 2)
      case Found(k) =>
        TakeOutSound(a.s, k, Dropped(a.s.inn.list[k].serial));
        TakeOutSound(a.s, k, Delivered(a.s.inn.list[k]));
        AllHeldWithout(a.s.inn.list, k);
      case _ =>
    }
  }

  lemma {:induction false} ResetInKeepsAll(l: seq<Message>, quota: nat)
    requires AllHeld(l)
    ensures ResetIn(l, quota).list == l
    ensures ResetIn(l, quota).quota == if quota < |l| then 0 else quota - |l|
  {
    if l != [] {
      assert forall k | 0 <= k < |l[1..]| :: l[1..][k] == l[k + 1];
      ResetInKeepsAll(l[1..], Decrement(quota));
    }
  }

  lemma InStep(s: State, e: Event, net: Net)
    requires InSound(s.inn) && InConserved(s.inn, s.notes) && Possible(e)
    ensures var t := Next(s, e, net); InSound(t.inn) && InConserved(t.inn, t.notes)
    ensures QuotaSound(s.inn) ==> QuotaSound(Next(s, e, net).inn)
  {
    hide Tally, Serials, PublishOut, PubAckComp, PubRec, PublishIn, PubRel, AllHeld;
    match e
    case DoPublish(qos, content) => PublishOutNotes(s, qos, content, net);
    case DoTakeMid =>
    case DoConnectInit =>
    case DoReset => ResetInKeepsAll(s.inn.list, s.inn.maximum);
    case DoSetReceiveMaximum(_) =>
    case DoSetState(_) =>
    case OnConnack(_, _) =>
    case OnPuback(a) => AckNotes(s, 1, a, net);
    case OnPubcomp(a) => AckNotes(s, 2, a, net);
    case OnPubrec(a) => PubRecNotes(s, a, net);
    case OnPublish(p) => PublishInSound(s, p, net);
    case OnPubrel(flags, a) => PubRelSound(s, flags, a, net);
  }

  lemma PublishOutNotes(s: State, qos: nat, content: Content, net: Net)
    ensures var t := PublishOut(s, qos, content, net).s;
            && t.inn == s.inn
            && (forall k | k in {IsStored, IsDelivered, IsDropped} :: Tally(k, t.notes) == Tally(k, s.notes))
  {
    hide Tally, Pick;
    OutboundNotesIgnored(s.notes, Appended(s.out.drawn + 1));
  }

  lemma AckNotes(s: State, qos: nat, ack: Ack, net: Net)
    ensures var t := PubAckComp(s, qos, ack, net).s;
            && t.inn == s.inn
            && (forall k | k in {IsStored, IsDelivered, IsDropped} :: Tally(k, t.notes) == Tally(k, s.notes))
  {
    hide Tally, Pick;
    if ack.Ack? {
      match Find(s.out.list, ack.mid, qos)
      case Found(k) => OutboundNotesIgnored(s.notes, Ending(s.out.list[k], false));
      case _ =>
    }
  }

  lemma PubRecNotes(s: State, ack: Ack, net: Net)
    ensures var t := PubRec(s, ack, net).s;
            && t.inn == s.inn
            && (forall k | k in {IsStored, IsDelivered, IsDropped} :: Tally(k, t.notes) == Tally(k, s.notes))
  {
    hide Tally, Pick;
    if ack.Ack? {
      match Find(s.out.list, ack.mid, 2)
      case Found(k) => OutboundNotesIgnored(s.notes, Ending(s.out.list[k], true));
      case _ =>
    }
  }

  // ---------- whole runs ----------

  ghost predicate Sound(s: State) {
    && OutSound(s.out) && OutConserved(s.out, s.notes)
    && InSound(s.inn) && InConserved(s.inn, s.notes)
  }

  ghost predicate PossibleRun(es: seq<Event>) { forall e | e in es :: Possible(e) }

  lemma {:induction false} SoundRun(s: State, es: seq<Event>, net: Net)
    requires Sound(s) && PossibleRun(es)
    ensures Sound(Run(s, es, net))
    ensures QuotaSound(s.inn) ==> QuotaSound(Run(s, es, net).inn)
    decreases |es|
  {
    hide Sound, QuotaSound, Next;
    if es != [] {
      assert es[0] in es && forall e | e in es[1..] :: e in es;
      SoundStep(s, es[0], net);
      SoundRun(Next(s, es[0], net), es[1..], net);
    }
  }

  /** One event, whatever it is. */
  lemma SoundStep(s: State, e: Event, net: Net)
    requires Sound(s) && Possible(e)
    ensures Sound(Next(s, e, net))
    ensures QuotaSound(s.inn) ==> QuotaSound(Next(s, e, net).inn)
  {
    hide OutSound, OutConserved, InSound, InConserved, QuotaSound, Next;
    OutStep(s, e, net);
    InStep(s, e, net);
  }

  lemma StartSound(protocol: Protocol, outMax: nat, inMax: nat)
    ensures Sound(Start(protocol, outMax, inMax))
  {
  }

  /** Every QoS 1 or 2 message appended is, in every later state, in the list, or was
      completed, or was refused: exactly one of these, once. */
  lemma EveryMessageOnce(protocol: Protocol, outMax: nat, inMax: nat, es: seq<Event>, net: Net, serial: nat)
    requires PossibleRun(es)
    ensures var s := Run(Start(protocol, outMax, inMax), es, net);
            && (serial in Tally(IsAppended, s.notes) ==>
                  Serials(s.out.list)[serial] + Tally(IsCompleted, s.notes)[serial] + Tally(IsRefused, s.notes)[serial] == 1)
            && (serial !in Tally(IsAppended, s.notes) ==>
                  serial !in Serials(s.out.list) && serial !in Tally(IsCompleted, s.notes) && serial !in Tally(IsRefused, s.notes))
  {
    StartSound(protocol, outMax, inMax);
    SoundRun(Start(protocol, outMax, inMax), es, net);
  }

  /** Every inbound QoS 2 message stored is held, delivered or dropped: exactly
      one of these, once. */
  lemma EveryDeliveryOnce(protocol: Protocol, outMax: nat, inMax: nat, es: seq<Event>, net: Net, serial: nat)
    requires PossibleRun(es)
    ensures var s := Run(Start(protocol, outMax, inMax), es, net);
            && (serial in Tally(IsStored, s.notes) ==>
                  Serials(s.inn.list)[serial] + Tally(IsDelivered, s.notes)[serial] + Tally(IsDropped, s.notes)[serial] == 1)
            && (serial !in Tally(IsStored, s.notes) ==>
                  serial !in Tally(IsDelivered, s.notes) && serial !in Tally(IsDropped, s.notes))
  {
    StartSound(protocol, outMax, inMax);
    SoundRun(Start(protocol, outMax, inMax), es, net);
  }

  /** In every state of every run: lengths, phases and identifiers are true. From
      the first connection on, a message is refused for lack of receive quota only
      when the maximum number of entries is held. */
  lemma AlwaysSound(protocol: Protocol, outMax: nat, inMax: nat, before: seq<Event>, after: seq<Event>, net: Net, qos: nat)
    requires PossibleRun(before) && PossibleRun(after)
    ensures var connecting := Run(Start(protocol, outMax, inMax), before, net);
            var s := Run(ConnectInit(connecting), after, net);
            && OutSound(connecting.out) && InSound(connecting.inn)
            && OutSound(s.out) && InSound(s.inn) && QuotaSound(s.inn)
            && (Exhausted(s, qos) ==> |s.inn.list| >= s.inn.maximum)
  {
    var connecting := Run(Start(protocol, outMax, inMax), before, net);
    StartSound(protocol, outMax, inMax);
    SoundRun(Start(protocol, outMax, inMax), before, net);
    InitSound(connecting);
    SoundRun(ConnectInit(connecting), after, net);
    hide Run, Start, ConnectInit, OutSound, OutConserved, InConserved;
  }

  lemma InitSound(s: State)
    requires Sound(s)
    ensures Sound(ConnectInit(s)) && QuotaSound(ConnectInit(s).inn)
  {
    hide Tally, Serials, AllPhased, Numbered, AllHeld;
  }

  /** An acknowledgement of an unknown identifier reports nothing and removes
      nothing; a PUBREL of an unknown identifier delivers nothing. */
  lemma UnknownMidsReportNothing(s: State, mid: uint16, reason: byte, flags: byte, net: Net)
    ensures (forall m | m in s.out.list :: m.mid != mid) ==>
              && PubAckComp(s, 1, Ack(mid, reason), net).s.notes == s.notes
              && PubAckComp(s, 2, Ack(mid, reason), net).s.notes == s.notes
              && PubRec(s, Ack(mid, reason), net).s.notes == s.notes
    ensures (forall m | m in s.inn.list :: m.mid != mid) ==>
              && PubRel(s, flags, Ack(mid, reason), net).s.notes == s.notes
              && PubRel(s, flags, Ack(mid, reason), net).s.inn.list == s.inn.list
  {
    var k := IndexOf(s.out.list, mid);
    if k.Some? { assert s.out.list[k.value] in s.out.list; }
    var j := IndexOf(s.inn.list, mid);
    if j.Some? { assert s.inn.list[j.value] in s.inn.list; }
  }
}
