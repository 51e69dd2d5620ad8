/**
 * What packets do, told from the bytes received: when a CONNACK makes a client active,
 * and what a refused one leaves alone; that nothing else makes it active; and which
 * step of the state machine each of the packets that deliver messages is.
 */
module Received {
  import opened Mqtt
  import opened Properties
  import opened Framing
  import opened Inflight
  import opened Delivery
  import opened Results
  import opened Building
  import opened Acks
  import opened Publishing
  import opened Session
  import Client

  /** A CONNACK that can be read, with these properties. */
  ghost predicate Legible(s: State, x: Client.Terms, f: Frame, ps: seq<Property>) {
    f.command / 16 == 2 && |f.body| >= 2 && Client.ConnackLaid(s.protocol, x.id.Some?, f.body, f.body[1], ps)
  }

  ghost predicate CanRead(s: State, x: Client.Terms, f: Frame) { exists ps :: Legible(s, x, f, ps) }

  /** One that accepts the client: its second byte is 0. */
  ghost predicate Accepting(s: State, x: Client.Terms, f: Frame) { CanRead(s, x, f) && f.body[1] == 0 }

  /** The connection, the list and what has been sent. */
  predicate Untouched(s: State, t: State) {
    t.state == s.state && t.wire == s.wire && t.out.list == s.out.list && t.inn == s.inn && t.notes == s.notes
  }

  lemma ConnackTurn(s: State, x: Client.Terms, f: Frame, other: int, net: Net)
    requires f.command / 16 == 2
    ensures CanRead(s, x, f) <==> Client.ConnackAt(s.protocol, x.id.Some?, f.body).Connack?
    ensures match Client.ConnackAt(s.protocol, x.id.Some?, f.body)
            case BadConnack(rc) => HandleFrame(s, x, f, other, net) == Turn(s, x, rc) && ReadError(rc)
            case Connack(reason, ps) =>
              && Legible(s, x, f, ps) && reason == f.body[1]
              && HandleFrame(s, x, f, other, net).s == Connack(s, reason, ReceiveMaximumOf(ps), net).s
              && HandleFrame(s, x, f, other, net).rc == Connack(s, reason, ReceiveMaximumOf(ps), net).rc
              && HandleFrame(s, x, f, other, net).x == Client.TakenFrom(ps, x)
  {
    hide Connack, ReceiveMaximumOf, Client.ConnackAt, Client.ConnackLaid, Client.TakenFrom;
    Client.ConnackErrors(s.protocol, x.id.Some?, f.body);
    match Client.ConnackAt(s.protocol, x.id.Some?, f.body)
    case Connack(reason, ps) => ConnackLegible(s, x, f, reason, ps);
    case BadConnack(_) =>
      forall ps ensures !Legible(s, x, f, ps) {
        if Legible(s, x, f, ps) { Client.ConnackExact(s.protocol, x.id.Some?, f.body, f.body[1], ps); }
      }
  }

  lemma ConnackLegible(s: State, x: Client.Terms, f: Frame, reason: byte, ps: seq<Property>)
    requires f.command / 16 == 2 && Client.ConnackAt(s.protocol, x.id.Some?, f.body) == Client.ConnackRead.Connack(reason, ps)
    ensures Legible(s, x, f, ps) && reason == f.body[1]
  {
    Client.ConnackExact(s.protocol, x.id.Some?, f.body, reason, ps);
    hide Client.ConnackAt, BlockLaid;
  }

  /** A client that is not connected yet, after a CONNACK: it is active exactly if the
      packet can be read and its second byte is 0. Any other CONNACK fails, and leaves
      connection, list and wire alone; it is a refusal exactly for 1 to 5. */
  lemma ConnackFrame(s: State, x: Client.Terms, f: Frame, other: int, net: Net)
    requires f.command / 16 == 2 && s.state != Active && s.state != Disconnecting
    ensures var t := HandleFrame(s, x, f, other, net);
            && (t.s.state == Active <==> Accepting(s, x, f))
            && (t.rc == SUCCESS <==> Accepting(s, x, f))
            && (!Accepting(s, x, f) ==> Untouched(s, t.s))
            && (t.rc == 5 <==> CanRead(s, x, f) && 1 <= f.body[1] <= 5)
            && (!CanRead(s, x, f) ==> t.s == s && t.x == x)
  {
    hide HandleFrame, Connack, ReceiveMaximumOf, Client.ConnackAt, CanRead, Legible;
    ConnackTurn(s, x, f, other, net);
    match Client.ConnackAt(s.protocol, x.id.Some?, f.body)
    case BadConnack(_) =>
    case Connack(reason, ps) => ConnackResult(s, reason, ReceiveMaximumOf(ps), net);
  }

  /** What is taken from a CONNACK that can be read: the send window is that of its
      first Receive Maximum, property 33, or what it was without one, and starts
      afresh; client identifier, maximum QoS, maximum packet size and keepalive time
      are those of properties 18, 36, 39 and 19, or what they were. */
  lemma ConnackTakes(s: State, x: Client.Terms, f: Frame, ps: seq<Property>, other: int, net: Net)
    requires Legible(s, x, f, ps)
    ensures var t := HandleFrame(s, x, f, other, net);
            && t.s.out.quota == t.s.out.maximum
            && (forall k: nat | FirstAt(ps, k) ::
                  Client.Obeyed(ps[k], t.x) && (ps[k].identifier == 33 && ps[k].value.Int16? ==> t.s.out.maximum == ps[k].value.i16))
            && (Client.Lacks(ps, 33) ==> t.s.out.maximum == s.out.maximum)
            && (Client.Lacks(ps, 18) ==> t.x.id == x.id)
            && (Client.Lacks(ps, 36) ==> t.x.maximumQos == x.maximumQos)
            && (Client.Lacks(ps, 39) ==> t.x.maximumPacketSize == x.maximumPacketSize)
            && (Client.Lacks(ps, 19) ==> t.x.keepalive == x.keepalive)
  {
    hide HandleFrame, Connack, ReceiveMaximumOf, Client.ConnackAt, Client.ConnackLaid, Client.TakenFrom, Client.Obeyed, Encodable;
    Client.ConnackExact(s.protocol, x.id.Some?, f.body, f.body[1], ps);
    ConnackTurn(s, x, f, other, net);
    ConnackResult(s, f.body[1], ReceiveMaximumOf(ps), net);
    LegibleGood(s, x, f, ps);
    Client.TermsExact(ps, x);
    if Client.Lacks(ps, 33) { ReadsNothing(ps, 33, 0, None); }
    forall k: nat | FirstAt(ps, k) && ps[k].identifier == 33 && ps[k].value.Int16?
      ensures ReceiveMaximumOf(ps) == Some(ps[k].value.i16)
    {
      ReadsFirst(ps, k, 0, None);
    }
  }

  lemma LegibleGood(s: State, x: Client.Terms, f: Frame, ps: seq<Property>)
    requires Legible(s, x, f, ps)
    ensures forall p | p in ps :: Encodable(p)
  {
    hide Encodable;
  }

  /** A DISCONNECT ends the connection exactly if it can be read; nothing else
      changes. */
  lemma DisconnectFrame(s: State, x: Client.Terms, f: Frame, other: int, net: Net)
    requires f.command / 16 == 14
    ensures var t := HandleFrame(s, x, f, other, net);
            var legible := s.protocol == V5 && f.body != [] && (|f.body| > 2 ==> exists ps, rest :: BlockLaid(0xE0, f.body[1..], ps, rest));
            && t.s == (if legible then s.(state := Disconnected) else s) && t.x == x
            && (t.rc == SUCCESS <==> legible)
  {
    hide Client.DisconnectAt, BlockLaid;
    Client.DisconnectReads(s.protocol, f.body);
  }

  /** Packets of other types than these and the five that deliver messages change
      nothing: PINGREQ, PINGRESP, SUBACK, UNSUBACK and AUTH have handlers of their own,
      the others are protocol errors. */
  lemma OtherFrames(s: State, x: Client.Terms, f: Frame, other: int, net: Net)
    requires f.command / 16 in {0, 1, 8, 9, 10, 11, 12, 13, 15}
    ensures HandleFrame(s, x, f, other, net) ==
            Turn(s, x, if f.command / 16 in {9, 11, 12, 13, 15} then other else ERR_PROTOCOL)
  {
  }

  /** Only an accepting CONNACK makes a client active, */
  lemma ActiveStep(s: State, x: Client.Terms, f: Frame, other: int, net: Net)
    requires s.state != Active && HandleFrame(s, x, f, other, net).s.state == Active
    ensures Accepting(s, x, f)
  {
    hide HandleFrame, Next, Client.ConnackAt, Client.DisconnectAt, CanRead;
    FrameIsEvent(s, x, f, other, net);
    match EventOf(s.protocol, x.id.Some?, f)
    case None =>
    case Some(e) =>
      StateKept(s, e, net);
      if f.command / 16 == 2 { ConnackTurn(s, x, f, other, net); }
  }

  /** so a client that is active now and was not, whatever packets it has handled in
      between, has received one. */
  lemma {:induction false} ActiveHeard(p: Peer, fs: seq<Frame>, net: Net) returns (k: nat)
    requires p.s.state != Active && HandleAll(p, fs, net).s.state == Active
    ensures k < |fs|
    ensures var q := HandleAll(p, fs[..k], net); q.s.state != Active && Accepting(q.s, q.x, fs[k])
  {
    hide HandleFrame, Accepting;
    var before := fs[..|fs| - 1];
    var q := HandleAll(p, before, net);
    if q.s.state == Active {
      k := ActiveHeard(p, before, net);
      assert fs[..k] == before[..k];
    } else {
      k := |fs| - 1;
      ActiveStep(q.s, q.x, fs[k], 0, net);
    }
  }

  // ---------- messages ----------

  /** The step that a legible acknowledgement takes, by the number of its type. */
  ghost function AckStep(s: State, number: int, flags: byte, ack: Ack, net: Net): Step {
    match number
    case 4 => PubAckComp(s, 1, ack, net)
    case 5 => PubRec(s, ack, net)
    case 6 => PubRel(s, flags, ack, net)
    case _ => PubAckComp(s, 2, ack, net)
  }

  /** The packets PUBACK, PUBREC, PUBREL and PUBCOMP that can be read. The properties
      of a PUBCOMP are checked as those of a PUBACK. */
  ghost predicate AckLegible(protocol: Protocol, f: Frame, mid: uint16, reason: byte) {
    mid != 0 && Laid(protocol, if f.command / 16 == 7 then 0x40 else f.command / 16 * 16, f.body, mid, reason)
  }

  /** One that can be read takes its step with the identifier and the reason in it;
      any other fails, and leaves lists, notes and wire alone. */
  lemma AckFrame(s: State, x: Client.Terms, f: Frame, other: int, net: Net)
    requires 4 <= f.command / 16 <= 7
    ensures var t := HandleFrame(s, x, f, other, net);
            && (forall mid, reason | AckLegible(s.protocol, f, mid, reason) ::
                  var a := AckStep(s, f.command / 16, f.command % 16, Ack(mid, reason), net); t == Turn(a.s, x, a.rc))
            && ((forall mid, reason :: !AckLegible(s.protocol, f, mid, reason)) ==>
                  t.rc != SUCCESS && Untouched(s, t.s) && t.x == x)
  {
    hide AckAt, Laid, PubAckComp, PubRec, PubRel;
    var command := if f.command / 16 == 7 then 0x40 else f.command / 16 * 16;
    var ack := AckAt(s.protocol, command, f.body);
    AckErrors(s.protocol, command, f.body);
    forall mid, reason ensures ack == Ack(mid, reason) <==> AckLegible(s.protocol, f, mid, reason) {
      AckExact(s.protocol, command, f.body, mid, reason);
    }
    AckTurn(s, x, f, other, net);
    if ack.BadAck? {
      BadAckStep(s, f.command / 16, f.command % 16, ack, net);
    } else {
      assert AckLegible(s.protocol, f, ack.mid, ack.reason);
    }
  }

  lemma AckTurn(s: State, x: Client.Terms, f: Frame, other: int, net: Net)
    requires 4 <= f.command / 16 <= 7
    ensures var command := if f.command / 16 == 7 then 0x40 else f.command / 16 * 16;
            var a := AckStep(s, f.command / 16, f.command % 16, AckAt(s.protocol, command, f.body), net);
            HandleFrame(s, x, f, other, net) == Turn(a.s, x, a.rc)
  {
    hide AckAt, PubAckComp, PubRec, PubRel;
  }

  lemma BadAckStep(s: State, number: int, flags: byte, ack: Ack, net: Net)
    requires ack.BadAck? && ack.rc != SUCCESS
    ensures var a := AckStep(s, number, flags, ack, net); a.rc != SUCCESS && Untouched(s, a.s)
  {
  }

  /** A PUBLISH that can be read takes its step with topic, payload, flags, identifier
      and properties that are in it; any other fails and changes nothing. */
  lemma PublishFrame(s: State, x: Client.Terms, f: Frame, other: int, net: Net)
    requires f.command / 16 == 3
    ensures var t := HandleFrame(s, x, f, other, net);
            && (forall p | PublishLaid(s.protocol, f.command, f.body, p) ::
                  var a := PublishIn(s, p, net); t == Turn(a.s, x, a.rc))
            && ((forall p :: !PublishLaid(s.protocol, f.command, f.body, p)) ==> t.rc != SUCCESS && t.s == s && t.x == x)
  {
    hide PublishAt, PublishLaid, PublishIn;
    var q := PublishAt(s.protocol, f.command, f.body);
    PublishErrors(s.protocol, f.command, f.body);
    forall p: Publish | p.Publish? ensures q == p <==> PublishLaid(s.protocol, f.command, f.body, p) {
      PublishExact(s.protocol, f.command, f.body, p);
    }
    LaidIsPublish(s.protocol, f);
    assert HandleFrame(s, x, f, other, net) == Turn(PublishIn(s, q, net).s, x, PublishIn(s, q, net).rc);
    PublishResult(s, q, net);
  }

  lemma LaidIsPublish(protocol: Protocol, f: Frame)
    ensures forall p | PublishLaid(protocol, f.command, f.body, p) :: p.Publish?
  {
  }
}
