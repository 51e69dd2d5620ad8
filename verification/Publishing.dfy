/**
 * The PUBLISH packet (section 3.3 of MQTT Version 5.0): printed by
 * send__real_publish, read back by handle__publish.
 */
module Publishing {
  import opened Mqtt
  import opened Wire
  import opened Packets
  import opened Framing
  import opened Properties
  import opened Repetition
  import opened Building
  import opened Inflight
  import opened Delivery
  import Utf8

  /** The arguments of send__real_publish; a null topic stands for the topic
      alias case. */
  datatype Outgoing = Outgoing(mid: uint16, topic: Option<seq<byte>>, payload: seq<byte>, qos: nat, retain: bool,
                               dup: bool, properties: seq<Property>)

  /** What the caller sees to: a QoS, a topic that fits and properties that have an
      encoding, with a length that an int holds. */
  predicate Sendable(protocol: Protocol, p: Outgoing) {
    && p.qos <= 2 && |p.payload| <= 0x7FFF_FFFF
    && (p.topic.Some? ==> Fits(p.topic.value))
    && (protocol == V5 ==> |EncodeProperties(p.properties)| <= 0x7FFF_FFFF && forall x | x in p.properties :: Encodable(x))
  }

  /** And a length that can be said in a packet. */
  predicate Printable(protocol: Protocol, p: Outgoing) {
    && p.qos <= 2 && |p.payload| <= 0x7FFF_FFFF
    && (p.topic.Some? ==> Fits(p.topic.value))
    && (protocol == V5 ==> PropertiesFit(p.properties))
  }

  function TopicBytes(p: Outgoing): seq<byte> { if p.topic.Some? then p.topic.value else [] }

  function Flag(b: bool): int { if b then 1 else 0 }

  function PublishCommand(p: Outgoing): byte
    requires p.qos <= 2
  {
    CMD_PUBLISH + 8 * Flag(p.dup) + 2 * p.qos + Flag(p.retain)
  }

  function MidBytes(p: Outgoing): seq<byte> { if p.qos > 0 then EncodeUint16(p.mid) else [] }

  /** Variable header and payload. */
  function PublishBody(protocol: Protocol, p: Outgoing): seq<byte> {
    EncodeBinary(TopicBytes(p)) + MidBytes(p) + PropertyBlock(protocol, p.properties) + p.payload
  }

  /** packet__check_oversize: the command byte is not counted. */
  function Oversize(maximumPacketSize: nat, remainingLength: nat): bool {
    maximumPacketSize > 0 && remainingLength + VarintBytes(remainingLength) > maximumPacketSize
  }

  /** The result of printing a packet with a body of this length. */
  function PrintResult(maximumPacketSize: nat, length: nat): int {
    if Oversize(maximumPacketSize, length) then ERR_OVERSIZE_PACKET
    else if length > MAX_VARINT then ERR_PAYLOAD_SIZE
    else SUCCESS
  }

  lemma FrameLength(f: Frame)
    requires |f.body| <= MAX_VARINT
    ensures |EncodeFrame(f)| == 1 + VarintBytes(|f.body|) + |f.body|
  {
    EncodeVarintLength(|f.body|);
  }

  /** A packet that passes the size check keeps to the broker's maximum, but for
      one length: there the command byte, which is not counted, makes it exceed the
      maximum by exactly 1. */
  lemma PacketSizeExact(maximumPacketSize: nat, f: Frame)
    requires maximumPacketSize > 0 && PrintResult(maximumPacketSize, |f.body|) == SUCCESS
    ensures |EncodeFrame(f)| <= maximumPacketSize <==> |f.body| + VarintBytes(|f.body|) != maximumPacketSize
    ensures |EncodeFrame(f)| <= maximumPacketSize + 1
  {
    FrameLength(f);
  }

  /** The length that send__real_publish adds up. Properties of 2^28 bytes and more
      are left out of it. */
  function AddedLength(protocol: Protocol, p: Outgoing): nat {
    var proplen := |EncodeProperties(p.properties)|;
    2 + |TopicBytes(p)| + |p.payload| + (if p.qos > 0 then 2 else 0)
    + if protocol == V5 && VarintBytes(proplen) <= 4 then proplen + VarintBytes(proplen) else 0
  }

  /** The bytes that it then writes: such properties are dropped, but their length
      is still written. */
  function WrittenBody(protocol: Protocol, p: Outgoing): seq<byte> {
    var e := EncodeProperties(p.properties);
    EncodeBinary(TopicBytes(p)) + MidBytes(p)
    + (if protocol != V5 then [] else EncodeVarint(|e|) + if VarintBytes(|e|) <= 4 then e else [])
    + p.payload
  }

  /** The two agree exactly when the properties are shorter than 2^28 bytes;
      otherwise 5 bytes more are written than there is room for. */
  lemma AddedLengthExact(protocol: Protocol, p: Outgoing)
    requires Sendable(protocol, p)
    ensures |WrittenBody(protocol, p)| ==
            AddedLength(protocol, p) + if protocol == V5 && |EncodeProperties(p.properties)| > MAX_VARINT then 5 else 0
    ensures protocol != V5 || |EncodeProperties(p.properties)| <= MAX_VARINT ==> WrittenBody(protocol, p) == PublishBody(protocol, p)
  {
    hide EncodeVarint, EncodeProperties;
    if protocol == V5 { EncodeVarintLength(|EncodeProperties(p.properties)|); }
  }

  method WriteTopic(packet: Packet, p: Outgoing)
    requires (p.topic.Some? ==> Fits(p.topic.value)) && packet.Room(2 + |TopicBytes(p)|)
    modifies packet`pos, packet.payload
    ensures packet.Writable() && packet.Written() == old(packet.Written()) + EncodeBinary(TopicBytes(p))
  {
    if p.topic.Some? {
      packet.WriteString(p.topic.value);
    } else {
      packet.WriteUint16(0);
      assert EncodeBinary([]) == EncodeUint16(0);
    }
  }

  /** The length of the properties, as far as it goes into that of the packet. */
  method CountProperties(p: Outgoing) returns (proplen: nat, added: nat)
    requires Sendable(V5, p)
    ensures proplen == |EncodeProperties(p.properties)|
    ensures added == AddedLength(V5, p) - AddedLength(V311, p)
  {
    hide EncodeProperties, CountedAll, Storable;
    EncodableStorable(p.properties);
    WriteAllExact(p.properties);
    proplen := GetLengthAll(p.properties);
    var varbytes := VarintBytes(proplen);
    added := if varbytes > 4 then 0 else proplen + varbytes;
  }

  /** send__real_publish, up to the point where the packet is queued: the length
      is added up first, then the buffer is filled, exactly. With properties of 2^28
      bytes and more the buffer is overrun, which the write functions assert cannot
      happen; it is then left unfilled here. */
  method SendRealPublish(protocol: Protocol, maximumPacketSize: nat, p: Outgoing) returns (rc: int, packet: Packet?, overrun: bool)
    requires Sendable(protocol, p)
    ensures rc == PrintResult(maximumPacketSize, AddedLength(protocol, p))
    ensures overrun <==> rc == SUCCESS && |WrittenBody(protocol, p)| > AddedLength(protocol, p)
    ensures rc == SUCCESS ==>
              && packet != null && fresh(packet) && fresh(packet.payload)
              && packet.command == PublishCommand(p) && packet.mid == p.mid
    ensures rc == SUCCESS && !overrun ==> Filled(packet, PublishCommand(p), PublishBody(protocol, p))
  {
    AddedLengthExact(protocol, p);
    hide PropertiesFit, EncodeProperties, EncodeVarint, PropertyBlock, PublishBody, WrittenBody, EncodeUint16, Oversize;
    overrun := false;
    var packetlen := if p.topic.Some? then 2 + |p.topic.value| + |p.payload| else 2 + |p.payload|;
    if p.qos > 0 { packetlen := packetlen + 2; }
    var proplen, added := 0, 0;
    if protocol == V5 {
      proplen, added := CountProperties(p);
      packetlen := packetlen + added;
    }
    assert packetlen == AddedLength(protocol, p);
    if Oversize(maximumPacketSize, packetlen) { return ERR_OVERSIZE_PACKET, null, false; }
    packet := new Packet(PublishCommand(p), packetlen, p.mid);
    rc := packet.Alloc();
    if rc != SUCCESS { return rc, null, false; }
    if VarintBytes(proplen) > 4 { return rc, packet, true; }
    FitsWhole(protocol, p);
    FillPublish(packet, protocol, p);
    WholeFrame(packet, PublishCommand(p), PublishBody(protocol, p));
  }

  /** With shorter properties all that is counted is written. */
  lemma FitsWhole(protocol: Protocol, p: Outgoing)
    requires Sendable(protocol, p) && (protocol == V5 ==> VarintBytes(|EncodeProperties(p.properties)|) <= 4)
    ensures Printable(protocol, p) && |PublishBody(protocol, p)| == AddedLength(protocol, p)
  {
    AddedLengthExact(protocol, p);
    hide EncodeProperties, PublishBody, WrittenBody;
  }

  method FillPublish(packet: Packet, protocol: Protocol, p: Outgoing)
    requires Printable(protocol, p) && packet.Room(|PublishBody(protocol, p)|)
    modifies packet`pos, packet.payload
    ensures packet.Writable() && packet.Written() == old(packet.Written()) + PublishBody(protocol, p)
  {
    BodyLength(protocol, p);
    ghost var w := packet.Written();
    ghost var t, m, b := EncodeBinary(TopicBytes(p)), MidBytes(p), PropertyBlock(protocol, p.properties);
    ConcatFour(w, t, m, b, p.payload);
    hide EncodeBinary, EncodeUint16, PropertyBlock, PropertiesFit, PublishBody;
    WriteTopic(packet, p);
    if p.qos > 0 { packet.WriteUint16(p.mid); }
    assert packet.Written() == w + t + m;
    WritePropertyBlock(packet, protocol, p.properties);
    if |p.payload| > 0 { packet.WriteBytes(p.payload); }
    assert packet.Written() == w + t + m + b + p.payload;
  }

  lemma BodyLength(protocol: Protocol, p: Outgoing)
    requires Printable(protocol, p)
    ensures |PublishBody(protocol, p)| ==
            2 + |TopicBytes(p)| + |MidBytes(p)| + |PropertyBlock(protocol, p.properties)| + |p.payload|
    ensures |MidBytes(p)| == if p.qos > 0 then 2 else 0
    ensures protocol != V5 ==> PropertyBlock(protocol, p.properties) == []
  {
  }

  // ---------- reading ----------

  function QosOf(command: byte): nat { command / 2 % 4 }

  /** What handle__publish reads, as a function of the packet. */
  ghost function PublishAt(protocol: Protocol, command: byte, body: seq<byte>): Publish {
    match StringAt(body, 0)
    case Failed(rc) => BadTopic(rc)
    case Parsed(topic, p) => if topic == [] then BadTopic(ERR_PROTOCOL) else RestAt(protocol, command, topic, body, p)
  }

  ghost function RestAt(protocol: Protocol, command: byte, topic: seq<byte>, body: seq<byte>, p: nat): Publish
    requires p <= |body|
  {
    var qos := QosOf(command);
    if qos == 0 then PayloadAt(protocol, command, topic, 0, body, p)
    else
      match Uint16At(body, p)
      case Failed(rc) => BadRest(qos, rc)
      case Parsed(mid, q) =>
        if mid == 0 then BadRest(qos, ERR_PROTOCOL) else PayloadAt(protocol, command, topic, mid, body, q)
  }

  lemma RestQos(protocol: Protocol, command: byte, topic: seq<byte>, body: seq<byte>, p: nat)
    requires p <= |body|
    ensures var r := RestAt(protocol, command, topic, body, p);
            (r.BadRest? || r.Publish?) && r.qos == QosOf(command)
    ensures var r := RestAt(protocol, command, topic, body, p); r.Publish? ==> r.dup == (command / 8 % 2 == 1)
  {
  }

  ghost function PayloadAt(protocol: Protocol, command: byte, topic: seq<byte>, mid: uint16, body: seq<byte>, p: nat): Publish
    requires p <= |body|
  {
    var dup, qos, retain := command / 8 % 2 == 1, QosOf(command), command % 2 == 1;
    if protocol != V5 then Publish(qos, mid, dup, Content(Some(topic), body[p..], retain, []))
    else
      match PropertiesAt(CMD_PUBLISH, body, p)
      case Failed(rc) => BadRest(qos, rc)
      case Parsed(ps, q) =>
        PropertiesAtInside(CMD_PUBLISH, body, p);
        Publish(qos, mid, dup, Content(Some(topic), body[q..], retain, ps))
  }

  /** The first step of handle__publish. */
  method ReadTopic(packet: Packet) returns (rc: int, topic: seq<byte>)
    requires packet.Readable() && packet.pos == 0
    modifies packet`pos
    ensures packet.Readable()
    ensures match StringAt(packet.Received(), 0)
            case Failed(e) => rc == e
            case Parsed(t, next) =>
              topic == t && packet.pos == next && rc == if t == [] then ERR_PROTOCOL else SUCCESS
  {
    rc, topic := ReadTextContents(packet);
    if rc == SUCCESS && topic == [] { rc := ERR_PROTOCOL; }
  }

  /** Whatever is left of the packet. */
  method ReadPayload(packet: Packet) returns (rc: int, payload: seq<byte>)
    requires packet.Readable()
    modifies packet`pos
    ensures rc == SUCCESS && payload == packet.Received()[old(packet.pos)..]
  {
    rc, payload := SUCCESS, [];
    if packet.remainingLength > packet.pos {
      rc, payload := packet.ReadBytes(packet.remainingLength - packet.pos);
    }
  }

  /** The rest of it, behind the check of the receive quota. */
  method ReadRest(protocol: Protocol, packet: Packet, topic: seq<byte>) returns (rc: int, mid: uint16, content: Content)
    requires packet.Readable()
    modifies packet`pos
    ensures match RestAt(protocol, packet.command, topic, packet.Received(), old(packet.pos))
            case BadTopic(e) => false
            case BadRest(_, e) => rc == e && rc != SUCCESS
            case Publish(_, m, _, c) => rc == SUCCESS && mid == m && content == c
  {
    hide PropertiesAt, Uint16At, BytesAt;
    ghost var buf := packet.Received();
    mid, content := 0, Content(Some(topic), [], packet.command % 2 == 1, []);
    rc := SUCCESS;
    if QosOf(packet.command) > 0 {
      rc, mid := packet.ReadUint16();
      if rc != SUCCESS { return; }
      if mid == 0 { return ERR_PROTOCOL, mid, content; }
    }
    ghost var at := packet.pos;
    assert packet.Received() == buf;
    var properties: seq<Property> := [];
    if protocol == V5 {
      rc, properties := ReadAll(CMD_PUBLISH, packet);
      if rc != SUCCESS { return; }
      PropertiesAtInside(CMD_PUBLISH, buf, at);
    }
    var payload;
    rc, payload := ReadPayload(packet);
    if rc != SUCCESS { return; }
    content := Content(Some(topic), payload, packet.command % 2 == 1, properties);
  }

  /** A message that handle__publish can read: a topic of its own, valid text, a
      packet identifier where one is due. */
  ghost predicate Readable(protocol: Protocol, p: Outgoing) {
    && Printable(protocol, p)
    && p.topic.Some? && p.topic.value != [] && Utf8.WellFormed(p.topic.value)
    && (p.qos > 0 ==> p.mid != 0)
    && (protocol == V5 ==> AllGood(p.properties))
  }

  /** One that it accepts as it was sent: its properties are in their place too. */
  ghost predicate Deliverable(protocol: Protocol, p: Outgoing) {
    Readable(protocol, p) && (protocol == V5 ==> Acceptable(CMD_PUBLISH, p.properties))
  }

  function Arrived(protocol: Protocol, p: Outgoing): Publish
    requires p.topic.Some?
  {
    Publish(p.qos, if p.qos > 0 then p.mid else 0, p.dup,
            Content(p.topic, p.payload, p.retain, if protocol == V5 then p.properties else []))
  }

  /** What becomes of it: read back, or refused for the fault of its properties. */
  function ReadBack(protocol: Protocol, p: Outgoing): Publish
    requires p.topic.Some?
  {
    if protocol == V5 && FirstFault(CMD_PUBLISH, p.properties) != SUCCESS
    then BadRest(p.qos, FirstFault(CMD_PUBLISH, p.properties))
    else Arrived(protocol, p)
  }

  /** Flags, topic and identifier of an accepted PUBLISH (section 3.3.1). */
  predicate HeadIs(command: byte, topic: seq<byte>, mid: uint16, p: Publish) {
    && p.Publish? && p.content.topic == Some(topic) && p.mid == mid
    && p.dup == (command / 8 % 2 == 1) && p.qos == command / 2 % 4 && p.content.retain == (command % 2 == 1)
  }

  /** Its properties and its payload. */
  ghost predicate TailIs(protocol: Protocol, b: seq<byte>, content: Content) {
    if protocol == V5 then BlockLaid(0x30, b, content.properties, content.payload)
    else content.properties == [] && content.payload == b
  }

  /** The PUBLISH packets that are accepted, byte by byte: a topic, an identifier
      where one is due, and the rest. */
  ghost predicate PublishLaid(protocol: Protocol, command: byte, body: seq<byte>, p: Publish) {
    && p.Publish? && p.content.topic.Some?
    && var t := p.content.topic.value;
    && t != [] && Fits(t) && Utf8.WellFormed(t) && HeadIs(command, t, p.mid, p) && (p.qos > 0 <==> p.mid != 0)
    && var head := EncodeBinary(t) + if p.qos > 0 then EncodeUint16(p.mid) else [];
    && head <= body && TailIs(protocol, body[|head|..], p.content)
  }

  lemma PayloadExact(protocol: Protocol, command: byte, topic: seq<byte>, mid: uint16, body: seq<byte>, at: nat, p: Publish)
    requires at <= |body| && p.Publish?
    ensures PayloadAt(protocol, command, topic, mid, body, at) == p <==>
            HeadIs(command, topic, mid, p) && TailIs(protocol, body[at..], p.content)
  {
    hide PropertiesAt, BlockLaid;
    if protocol == V5 {
      var c := p.content;
      if BlockLaid(CMD_PUBLISH, body[at..], c.properties, c.payload) {
        BlockEnds(CMD_PUBLISH, body[at..], c.properties, c.payload);
        var next := |body| - |c.payload|;
        assert body[next..] == body[at..][next - at..];
        BlockExact(CMD_PUBLISH, body, at, c.properties, next);
      }
      match PropertiesAt(CMD_PUBLISH, body, at)
      case Failed(_) =>
      case Parsed(ps, q) => BlockExact(CMD_PUBLISH, body, at, ps, q);
    }
  }

  lemma RestExact(protocol: Protocol, command: byte, topic: seq<byte>, body: seq<byte>, at: nat, p: Publish)
    requires at <= |body| && p.Publish?
    ensures RestAt(protocol, command, topic, body, at) == p <==>
            && HeadIs(command, topic, p.mid, p) && (p.qos > 0 <==> p.mid != 0)
            && var m := if p.qos > 0 then EncodeUint16(p.mid) else [];
               m <= body[at..] && TailIs(protocol, body[at..][|m|..], p.content)
  {
    hide PayloadAt, TailIs, EncodeUint16, Uint16At;
    var d := body[at..];
    assert d[0..] == d;
    PayloadExact(protocol, command, topic, 0, body, at, p);
    if p.qos > 0 {
      Uint16Exact(body, at, p.mid, at + 2);
      if at + 2 <= |body| {
        assert d[2..] == body[at + 2..] && body[at..at + 2] == d[..2];
        PayloadExact(protocol, command, topic, p.mid, body, at + 2, p);
      }
    }
    match Uint16At(body, at)
    case Failed(_) =>
    case Parsed(mid, q) =>
      Uint16Exact(body, at, mid, q);
      PayloadExact(protocol, command, topic, mid, body, q, p);
  }

  lemma HeadSplits(body: seq<byte>, e: seq<byte>, m: seq<byte>)
    ensures e + m <= body <==> Holds(body, 0, e) && m <= body[|e|..]
    ensures e + m <= body ==> body[|e + m|..] == body[|e|..][|m|..]
  {
    if Holds(body, 0, e) {
      assert body[..|e|] == e && body == e + body[|e|..];
      if m <= body[|e|..] { assert body[..|e + m|] == e + m; }
    }
    if e + m <= body {
      assert body[..|e|] == (e + m)[..|e|] == e && body[|e|..][..|m|] == m;
    }
  }

  /** handle__publish reads exactly these packets. */
  lemma PublishExact(protocol: Protocol, command: byte, body: seq<byte>, p: Publish)
    requires p.Publish?
    ensures PublishAt(protocol, command, body) == p <==> PublishLaid(protocol, command, body, p)
  {
    hide RestAt, TailIs, EncodeUint16, EncodeBinary, StringAt, Holds;
    if p.content.topic.Some? {
      var t := p.content.topic.value;
      StringExact(body, 0, t, 2 + |t|);
      HeadSplits(body, EncodeBinary(t), if p.qos > 0 then EncodeUint16(p.mid) else []);
    }
    match StringAt(body, 0)
    case Failed(_) =>
    case Parsed(t, next) =>
      StringExact(body, 0, t, next);
      RestExact(protocol, command, t, body, next, p);
  }

  /** A topic that can be read. */
  ghost predicate HasTopic(body: seq<byte>, t: seq<byte>) {
    t != [] && Fits(t) && Utf8.WellFormed(t) && EncodeBinary(t) <= body
  }

  /** The others are at fault in their topic, or in the rest behind a topic. */
  lemma PublishErrors(protocol: Protocol, command: byte, body: seq<byte>)
    ensures match PublishAt(protocol, command, body)
            case BadTopic(rc) => ReadError(rc) && forall t :: !HasTopic(body, t)
            case BadRest(qos, rc) => ReadError(rc) && qos == command / 2 % 4 && exists t :: HasTopic(body, t)
            case Publish(_, _, _, _) => true
  {
    hide PropertiesAt, Uint16At, EncodeBinary;
    forall t ensures HasTopic(body, t) ==> StringAt(body, 0) == Parsed(t, 2 + |t|) {
      if HasTopic(body, t) {
        assert |EncodeBinary(t)| == 2 + |t|;
        assert body[..2 + |t|] == EncodeBinary(t);
        StringExact(body, 0, t, 2 + |t|);
      }
    }
    match StringAt(body, 0)
    case Failed(_) => StringErrors(body);
    case Parsed(t, p) =>
      StringExact(body, 0, t, p);
      assert t != [] ==> HasTopic(body, t);
      RestErrors(protocol, command, t, body, p);
  }

  lemma StringErrors(body: seq<byte>)
    ensures StringAt(body, 0).Failed? ==> ReadError(StringAt(body, 0).rc)
  {
  }

  lemma RestErrors(protocol: Protocol, command: byte, topic: seq<byte>, body: seq<byte>, p: nat)
    requires p <= |body|
    ensures match RestAt(protocol, command, topic, body, p)
            case BadTopic(_) => false
            case BadRest(qos, rc) => ReadError(rc) && qos == command / 2 % 4
            case Publish(_, _, _, _) => true
  {
    hide PropertiesAt;
    ReadErrors(CMD_PUBLISH, body, p);
    ReadErrors(CMD_PUBLISH, body, p + 2);
  }

  lemma CommandBits(p: Outgoing)
    requires p.qos <= 2
    ensures var c := PublishCommand(p);
            QosOf(c) == p.qos && (c / 8 % 2 == 1) == p.dup && (c % 2 == 1) == p.retain && c / 16 == 3
  {
  }

  /** What one end prints the other end reads: topic, QoS, retain and duplicate
      flags, packet identifier, properties and payload all come back. */
  lemma PublishRoundTrip(protocol: Protocol, p: Outgoing)
    requires Deliverable(protocol, p)
    ensures PublishAt(protocol, PublishCommand(p), PublishBody(protocol, p)) == Arrived(protocol, p)
  {
    hide Acceptable, FirstFault, PublishAt, PublishCommand, PublishBody;
    CheckAllExact(CMD_PUBLISH, p.properties);
    PublishRead(protocol, p);
  }

  lemma PublishRead(protocol: Protocol, p: Outgoing)
    requires Readable(protocol, p)
    ensures PublishAt(protocol, PublishCommand(p), PublishBody(protocol, p)) == ReadBack(protocol, p)
  {
    var body := PublishBody(protocol, p);
    var t, m, b := EncodeBinary(p.topic.value), MidBytes(p), PropertyBlock(protocol, p.properties);
    hide ReadBack, FirstFault, RestAt;
    CommandBits(p);
    BodyParts(t, m, b, p.payload);
    assert Holds(body, 0, t) && Holds(body, |t|, m) && Holds(body, |t| + |m|, b);
    StringExact(body, 0, p.topic.value, |t|);
    RestRead(protocol, p, body);
  }

  lemma BodyParts(t: seq<byte>, m: seq<byte>, b: seq<byte>, y: seq<byte>)
    ensures var s := t + m + b + y;
            && Holds(s, 0, t) && Holds(s, |t|, m) && Holds(s, |t| + |m|, b)
            && s[|t| + |m| + |b|..] == y
  {
  }

  lemma RestRead(protocol: Protocol, p: Outgoing, body: seq<byte>)
    requires Readable(protocol, p) && body == PublishBody(protocol, p)
    ensures RestAt(protocol, PublishCommand(p), p.topic.value, body, 2 + |p.topic.value|) == ReadBack(protocol, p)
  {
    hide AllGood, PropertiesFit, PayloadAt, PropertyBlock, ReadBack, FirstFault;
    var m, b := MidBytes(p), PropertyBlock(protocol, p.properties);
    var at := 2 + |p.topic.value|;
    CommandBits(p);
    BodyParts(EncodeBinary(p.topic.value), m, b, p.payload);
    assert Holds(body, at, m) && Holds(body, at + |m|, b) && body[at + |m| + |b|..] == p.payload;
    hide EncodeBinary, PublishCommand, PublishBody;
    PayloadRead(protocol, p, body, at + |m|);
    if p.qos > 0 { Uint16Exact(body, at, p.mid, at + 2); }
  }

  lemma PayloadRead(protocol: Protocol, p: Outgoing, body: seq<byte>, at: nat)
    requires Readable(protocol, p)
    requires Holds(body, at, PropertyBlock(protocol, p.properties))
    requires body[at + |PropertyBlock(protocol, p.properties)|..] == p.payload
    ensures PayloadAt(protocol, PublishCommand(p), p.topic.value, if p.qos > 0 then p.mid else 0, body, at) == ReadBack(protocol, p)
  {
    hide PropertiesAt, PublishCommand, QosOf, FirstFault, PropertyBlock, AllGood, EncodeProperties;
    CommandBits(p);
    BodyLength(protocol, p);
    if protocol == V5 { BlockRead(CMD_PUBLISH, body, at, p.properties); }
  }

  /** A PUBLISH with several Subscription Identifiers, as the standard allows it,
      is refused as having a duplicate property. */
  lemma SubscriptionIdsRefused(p: Outgoing)
    requires Readable(V5, p) && AcceptedByStandard(CMD_PUBLISH, p.properties)
    ensures PublishAt(V5, PublishCommand(p), PublishBody(V5, p)) ==
            if SubscriptionIds(p.properties) <= 1 then Arrived(V5, p) else BadRest(p.qos, ERR_DUPLICATE_PROPERTY)
  {
    hide PublishAt, PublishCommand, PublishBody, FirstFault, AcceptedByStandard, Readable;
    SubscriptionIdsExact(p.properties);
    PublishRead(V5, p);
  }

  // ---------- inputs ----------

  /** A QoS 1 message on a topic of one character. */
  function Small(protocol: Protocol, qos: nat): Outgoing { Outgoing(1, Some([0x61]), [], qos, false, false, []) }

  lemma SmallBody(protocol: Protocol)
    ensures |PublishBody(protocol, Small(protocol, 1))| == if protocol == V5 then 6 else 5
    ensures Utf8.WellFormed([0x61]) && PropertiesFit([]) && EncodeProperties([]) == []
  {
    assert Utf8.EncodeAll([0x61]) == Utf8.Encode(0x61) + Utf8.EncodeAll([0x61][1..]);
    assert Utf8.Encodes([0x61], [0x61]);
    assert EncodeVarint(0) == [0];
  }

  /** A packet that is 1 byte too long for the broker and sent all the same. */
  lemma OneByteTooLong()
    ensures var p := Small(V5, 1);
            var f := Frame(PublishCommand(p), PublishBody(V5, p));
            Printable(V5, p) && PrintResult(7, |f.body|) == SUCCESS && |EncodeFrame(f)| == 8
  {
    SmallBody(V5);
    FrameLength(Frame(PublishCommand(Small(V5, 1)), PublishBody(V5, Small(V5, 1))));
  }
  /** A user property as long as it can be. */
  function LongProperty(text: seq<byte>): Property { Property(USER_PROPERTY, TextPair(text, text)) }

  /** 2049 of them are too long for the length of their block. */
  lemma LongPropertiesOverrun(text: seq<byte>)
    requires |text| == 65535
    ensures var p := Outgoing(1, Some([0x61]), [], 0, false, false, seq(2049, i => LongProperty(text)));
            && Sendable(V5, p) && PrintResult(0, AddedLength(V5, p)) == SUCCESS
            && |WrittenBody(V5, p)| == AddedLength(V5, p) + 5
  {
    var ps := seq(2049, i => LongProperty(text));
    var p := Outgoing(1, Some([0x61]), [], 0, false, false, ps);
    assert EncodeVarint(USER_PROPERTY) == [38];
    assert |EncodeProperty(LongProperty(text))| == 5 + 2 * 65535;
    EncodeAllSame(EncodeProperty, LongProperty(text), 2049);
    hide EncodeAll, EncodeVarint, EncodeBinary, EncodeProperty, WrittenBody;
    AddedLengthExact(V5, p);
  }
}
