/**
 * What the application hears of its messages: on_publish is called for a message
 * that is completed, on_publish_v5 also for one that the broker refuses in its
 * PUBREC.
 */
module Reports {
  import opened Mqtt
  import opened Inflight
  import opened Delivery
  import opened History
  import opened Inputs

  datatype Callback = OnPublishPlain | OnPublishV5

  /** How often each message has been reported to a callback. */
  function Heard(c: Callback, notes: seq<Note>): multiset<nat> {
    match c
    case OnPublishPlain => Tally(IsCompleted, notes)
    case OnPublishV5 => Tally(IsCompleted, notes) + Tally(IsRefused, notes)
  }

  /** A PUBREC of version 5 that refuses a message of the list. */
  predicate Refuses(s: State, e: Event) {
    && s.state == Active && s.protocol == V5
    && e.OnPubrec? && e.pubrec.Ack? && e.pubrec.reason >= 0x80
    && Find(s.out.list, e.pubrec.mid, 2).Found?
  }

  /** A PUBACK or PUBCOMP that names a message of its QoS. */
  predicate Completes(s: State, e: Event) {
    && s.state == Active
    && (match e
        case OnPuback(Ack(mid, _)) => Find(s.out.list, mid, 1).Found?
        case OnPubcomp(Ack(mid, _)) => Find(s.out.list, mid, 2).Found?
        case _ => false)
  }

  /** The message that it is about. */
  function Ended(s: State, e: Event): Message
    requires Refuses(s, e) || Completes(s, e)
  {
    match e
    case OnPuback(a) => s.out.list[Find(s.out.list, a.mid, 1).k]
    case OnPubcomp(a) => s.out.list[Find(s.out.list, a.mid, 2).k]
    case OnPubrec(a) => s.out.list[Find(s.out.list, a.mid, 2).k]
  }

  /** The identifier in an acknowledgement. */
  function Named(e: Event): uint16 {
    match e
    case OnPuback(Ack(mid, _)) => mid
    case OnPubcomp(Ack(mid, _)) => mid
    case OnPubrec(Ack(mid, _)) => mid
    case _ => 0
  }

  /** An event reports a message as refused exactly if it is such a PUBREC, and as
      completed exactly if it is such an acknowledgement; never both. The report is of
      that message, under the identifier in the packet. */
  lemma ReportsExact(s: State, e: Event, net: Net)
    ensures var t := Next(s, e, net);
            && s.notes <= t.notes
            && (Refuses(s, e) <==> exists n :: n in t.notes[|s.notes|..] && n.Refused?)
            && (Completes(s, e) <==> exists n :: n in t.notes[|s.notes|..] && n.Completed?)
            && (Refuses(s, e) ==> t.notes == s.notes + [Refused(Ended(s, e).serial, Named(e))])
            && (Completes(s, e) ==> t.notes == s.notes + [Completed(Ended(s, e).serial, Named(e))])
  {
    var t := Next(s, e, net);
    hide ReleaseToInflight, Retry, ResetOut, ResetIn, Without;
    var more := t.notes[|s.notes|..];
    assert t.notes == s.notes + more && |more| <= 1;
    if |more| == 1 { assert more == [more[0]] && more[0] in more; }
  }

  /** What it does to the tallies. */
  lemma TalliesExact(s: State, e: Event, net: Net)
    ensures var t := Next(s, e, net);
            Tally(IsRefused, t.notes) ==
            Tally(IsRefused, s.notes) + (if Refuses(s, e) then multiset{Ended(s, e).serial} else multiset{})
  {
    hide Next, Refuses, Completes, Ended, Tally;
    ReportsExact(s, e, net);
    var t := Next(s, e, net);
    if Refuses(s, e) {
      TallyNote(IsRefused, s.notes, Refused(Ended(s, e).serial, Named(e)));
    } else {
      TallyMore(s.notes, t.notes[|s.notes|..]);
      assert t.notes == s.notes + t.notes[|s.notes|..];
    }
  }

  lemma {:induction false} TallyMore(notes: seq<Note>, more: seq<Note>)
    requires forall n | n in more :: !n.Refused?
    ensures Tally(IsRefused, notes + more) == Tally(IsRefused, notes)
  {
    hide Tally;
    if more == [] {
      assert notes + more == notes;
    } else {
      var before, n := more[..|more| - 1], more[|more| - 1];
      TallyMore(notes, before);
      TallyNote(IsRefused, notes + before, n);
      assert notes + more == (notes + before) + [n];
    }
  }

  ghost predicate NoRefusals(s: State, es: seq<Event>, net: Net)
    decreases |es|
  {
    es == [] || (!Refuses(s, es[0]) && NoRefusals(Next(s, es[0], net), es[1..], net))
  }

  lemma {:induction false} RefusalsExact(s: State, es: seq<Event>, net: Net)
    ensures Tally(IsRefused, s.notes) <= Tally(IsRefused, Run(s, es, net).notes)
    ensures Tally(IsRefused, Run(s, es, net).notes) == Tally(IsRefused, s.notes) <==> NoRefusals(s, es, net)
    decreases |es|
  {
    hide Next, Refuses, Tally;
    if es != [] {
      TalliesExact(s, es[0], net);
      RefusalsExact(Next(s, es[0], net), es[1..], net);
    }
  }

  /** Over every run: a message that has left the list has been reported once to
      on_publish_v5; and all such messages have been reported to on_publish
      exactly if none was refused. */
  lemma EndedHeard(protocol: Protocol, outMax: nat, inMax: nat, es: seq<Event>, net: Net)
    requires PossibleRun(es)
    ensures var s := Run(Start(protocol, outMax, inMax), es, net);
            && (forall n: nat :: n in Tally(IsAppended, s.notes) && n !in Serials(s.out.list) ==> Heard(OnPublishV5, s.notes)[n] == 1)
            && ((forall n: nat :: n in Tally(IsAppended, s.notes) && n !in Serials(s.out.list) ==> Heard(OnPublishPlain, s.notes)[n] == 1)
                <==> NoRefusals(Start(protocol, outMax, inMax), es, net))
  {
    hide Run, Start, Tally, Serials, NoRefusals, PossibleRun;
    var s0 := Start(protocol, outMax, inMax);
    var s := Run(s0, es, net);
    NothingYet(protocol, outMax, inMax);
    RefusalsExact(s0, es, net);
    forall n: nat
      ensures n in Tally(IsAppended, s.notes) ==> Serials(s.out.list)[n] + Tally(IsCompleted, s.notes)[n] + Tally(IsRefused, s.notes)[n] == 1
      ensures n !in Tally(IsAppended, s.notes) ==> n !in Tally(IsRefused, s.notes)
    {
      EveryMessageOnce(protocol, outMax, inMax, es, net, n);
    }
    Shares(Tally(IsAppended, s.notes), Serials(s.out.list), Tally(IsCompleted, s.notes), Tally(IsRefused, s.notes));
  }

  lemma NothingYet(protocol: Protocol, outMax: nat, inMax: nat)
    ensures Tally(IsRefused, Start(protocol, outMax, inMax).notes) == multiset{}
  {
  }

  /** What is appended is held, completed or refused, each once. */
  lemma Shares(appended: multiset<nat>, held: multiset<nat>, completed: multiset<nat>, refused: multiset<nat>)
    requires forall n: nat :: n in appended ==> held[n] + completed[n] + refused[n] == 1
    requires forall n: nat :: n !in appended ==> n !in refused
    ensures forall n: nat :: n in appended && n !in held ==> (completed + refused)[n] == 1
    ensures (forall n: nat :: n in appended && n !in held ==> completed[n] == 1) <==> refused == multiset{}
  {
    if refused != multiset{} {
      var n :| n in refused;
      assert n in appended && n !in held && completed[n] == 0;
    }
  }

  /** Such a message: published, sent, refused; on_publish is never called for it. */
  lemma RefusedUnheard(content: Content, net: Net)
    requires net(0) == SUCCESS
    ensures var s := Run(Start(V5, 1, 20), CONNECTING + [DoPublish(2, content)] + [OnPubrec(Ack(1, 0x80))], net);
            && s.out.list == [] && s.notes == [Appended(1), Refused(1, 1)]
            && Heard(OnPublishPlain, s.notes) == multiset{} && Heard(OnPublishV5, s.notes) == multiset{1}
  {
    hide Run, Start, Next, Tally, OneOut;
    OneOutReached(V5, 2, content, net);
    RunMore(Start(V5, 1, 20), CONNECTING + [DoPublish(2, content)], OnPubrec(Ack(1, 0x80)), net);
    RefusedStep(content, net);
    RefusedTallies();
  }

  lemma RefusedStep(content: Content, net: Net)
    ensures var t := Next(OneOut(V5, 2, content), OnPubrec(Ack(1, 0x80)), net);
            t.out.list == [] && t.notes == [Appended(1), Refused(1, 1)]
  {
    var l := OneOut(V5, 2, content).out.list;
    assert Find(l, 1, 2) == Found(0) && Without(l, 0) == [];
    assert ReleaseToInflight([], 1, OneOut(V5, 2, content).wire, net).list == [];
    hide Without, Find;
  }

  lemma RefusedTallies()
    ensures Tally(IsCompleted, [Appended(1), Refused(1, 1)]) == multiset{}
    ensures Tally(IsRefused, [Appended(1), Refused(1, 1)]) == multiset{1}
  {
    assert [] + [Appended(1)] == [Appended(1)] && [Appended(1)] + [Refused(1, 1)] == [Appended(1), Refused(1, 1)];
    Noted([], Appended(1));
    Noted([Appended(1)], Refused(1, 1));
  }
}
