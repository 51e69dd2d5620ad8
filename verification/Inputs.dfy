/**
 * The start of the runs on which an expected property fails: a client that
 * connects, a window that is full.
 */
module Inputs {
  import opened Mqtt
  import opened Inflight
  import opened Delivery
  import opened SendWindow

  function Out(serial: nat, mid: uint16, qos: nat, state: MsgState, content: Content): Message {
    Message(serial, mid, qos, state, false, content)
  }

  const CONNECTING: seq<Event> := [DoConnectInit, OnConnack(0, None)]

  /** Connected at a maximum of 1, with nothing to do. */
  function Connected(protocol: Protocol): State {
    State(Outbound([], 0, 1, 1, 0, 0), Inbound([], 0, 20, 20, 0), Active, protocol, [], [])
  }

  lemma ConnectedReached(protocol: Protocol, net: Net)
    ensures Run(Start(protocol, 1, 20), CONNECTING, net) == Connected(protocol)
  {
    var s := Start(protocol, 1, 20);
    assert CONNECTING == [] + [DoConnectInit] + [OnConnack(0, None)];
    RunMore(s, [], DoConnectInit, net);
    RunMore(s, [] + [DoConnectInit], OnConnack(0, None), net);
  }

  /** The first message, handed out. */
  function First(qos: nat, content: Content): Message {
    Out(1, 1, qos, if qos == 1 then WaitForPuback else WaitForPubrec, content)
  }

  function OneOut(protocol: Protocol, qos: nat, content: Content): State {
    Connected(protocol).(out := Outbound([First(qos, content)], 1, 0, 1, 1, 1),
                         wire := [SentPublish(First(qos, content), SUCCESS)], notes := [Appended(1)])
  }

  lemma OneOutReached(protocol: Protocol, qos: nat, content: Content, net: Net)
    requires net(0) == SUCCESS && (qos == 1 || qos == 2)
    ensures Run(Start(protocol, 1, 20), CONNECTING + [DoPublish(qos, content)], net) == OneOut(protocol, qos, content)
  {
    ConnectedReached(protocol, net);
    RunMore(Start(protocol, 1, 20), CONNECTING, DoPublish(qos, content), net);
    OneSent(Out(1, 1, qos, Invalid, content), net);
    assert [] + [Out(1, 1, qos, Invalid, content)] == [Out(1, 1, qos, Invalid, content)];
    hide ReleaseToInflight, Run;
  }

  lemma OneSent(m: Message, net: Net)
    requires net(0) == SUCCESS && (m.qos == 1 || m.qos == 2) && m.state == Invalid
    ensures ReleaseToInflight([m], 1, [], net) == Walk([Release(m)], 0, [SentPublish(Release(m), SUCCESS)], SUCCESS)
  {
    assert [m][1..] == [];
    assert [] + [SentPublish(Release(m), SUCCESS)] == [SentPublish(Release(m), SUCCESS)];
    assert [Release(m)] + [] == [Release(m)];
  }

  /** A message waits when the window is full. */
  lemma WaitsBehind(s: State, qos: nat, content: Content, net: Net)
    requires s.out.quota == 0 && (qos == 1 || qos == 2)
    ensures var o := DrawMid(s.out);
            var m := Out(o.drawn, o.lastMid, qos, Invalid, content);
            Next(s, DoPublish(qos, content), net) ==
            s.(out := o.(list := o.list + [m], queueLen := o.queueLen + 1), notes := s.notes + [Appended(o.drawn)])
  {
  }

  /** Maximum 1, one message out, two waiting. */
  function FullWindow(content: Content): State {
    OneOut(V5, 1, content).(out := Outbound([First(1, content), Out(2, 2, 2, Invalid, content),
                                          Out(3, 3, 2, Invalid, content)], 3, 0, 1, 3, 3),
                         notes := [Appended(1), Appended(2), Appended(3)])
  }

  /** Published right after connecting, the first with success. */
  function Filling(content: Content): seq<Event> {
    CONNECTING + [DoPublish(1, content)] + [DoPublish(2, content)] + [DoPublish(2, content)]
  }

  lemma FullWindowReached(content: Content, net: Net)
    requires net(0) == SUCCESS
    ensures Run(Start(V5, 1, 20), Filling(content), net) == FullWindow(content)
  {
    var s := Start(V5, 1, 20);
    OneOutReached(V5, 1, content, net);
    WaitsBehind(OneOut(V5, 1, content), 2, content, net);
    WaitsBehind(Next(OneOut(V5, 1, content), DoPublish(2, content), net), 2, content, net);
    hide Next, Start, Run;
    RunMore(s, CONNECTING + [DoPublish(1, content)], DoPublish(2, content), net);
    RunMore(s, CONNECTING + [DoPublish(1, content)] + [DoPublish(2, content)], DoPublish(2, content), net);
  }

  lemma FullWindowCounts(content: Content)
    ensures var l := FullWindow(content).out.list; Count(l) == 1 && InOrder(l) && Plain(l) && Window(FullWindow(content))
    ensures forall mid: uint16 | mid > 3 :: IndexOf(FullWindow(content).out.list, mid) == None
    ensures IndexOf(FullWindow(content).out.list, 3) == Some(2)
  {
    var l := FullWindow(content).out.list;
    assert l[1..][1..] == [l[2]] && l[1..][1..][1..] == [];
    assert Count(l[1..]) == 0;
    assert IndexOf(l[1..][1..], 3) == Some(0);
    assert IndexOf(l[1..], 3) == Some(1);
  }
}
