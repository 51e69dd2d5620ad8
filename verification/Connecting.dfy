/**
 * The CONNECT packet (section 3.1 of MQTT Version 5.0, and of 3.1.1 and 3.1),
 * printed by send__connect, and a reader that follows the standard.
 */
module Connecting {
  import opened Mqtt
  import opened Wire
  import opened Packets
  import opened Framing
  import opened Repetition
  import opened Properties
  import opened Building

  datatype Will = Will(topic: seq<byte>, payload: seq<byte>, qos: nat, retain: bool, properties: seq<Property>)

  /** What the client has been given to connect with. */
  datatype Connect = Connect(
    id: Option<seq<byte>>, username: Option<seq<byte>>, password: Option<seq<byte>>, will: Option<Will>,
    keepalive: uint16, clean: bool, properties: seq<Property>)

  function ProtocolName(protocol: Protocol): seq<byte> {
    if protocol == V31 then [0x4D, 0x51, 0x49, 0x73, 0x64, 0x70] else [0x4D, 0x51, 0x54, 0x54]
  }

  function Level(protocol: Protocol): byte {
    match protocol
    case V31 => 3
    case V311 => 4
    case V5 => 5
  }

  // ---------- the Receive Maximum property ----------

  /** The property that send__connect adds by itself. */
  function LocalProperties(protocol: Protocol, ps: seq<Property>, inflightMaximum: uint16): seq<Property> {
    if protocol == V5 && ReceiveMaximumOf(ps).None? then [Property(RECEIVE_MAXIMUM, Int16(inflightMaximum))] else []
  }

  function SentProperties(protocol: Protocol, ps: seq<Property>, inflightMaximum: uint16): seq<Property> {
    ps + LocalProperties(protocol, ps, inflightMaximum)
  }

  /** The broker is always told the Receive Maximum that the client will use:
      the application's if there is one, the client's own otherwise. */
  lemma ReceiveMaximumAnnounced(ps: seq<Property>, inflightMaximum: uint16)
    requires forall p | p in ps :: Typed(p)
    ensures ReceiveMaximumOf(SentProperties(V5, ps, inflightMaximum)) ==
            Some(if ReceiveMaximumOf(ps).Some? then ReceiveMaximumOf(ps).value else inflightMaximum)
  {
    FirstOfConcat(ps, LocalProperties(V5, ps, inflightMaximum), RECEIVE_MAXIMUM);
  }

  // ---------- layout ----------

  function Bit(b: bool, weight: nat): nat { if b then weight else 0 }

  function Flags(c: Connect): byte
    requires c.will.Some? ==> c.will.value.qos <= 2
  {
    Bit(c.clean, 2)
    + (if c.will.Some? then Bit(c.will.value.retain, 32) + c.will.value.qos * 8 + 4 else 0)
    + Bit(c.username.Some?, 128) + Bit(c.password.Some?, 64)
  }

  function Header(protocol: Protocol, c: Connect, ps: seq<Property>): seq<byte>
    requires c.will.Some? ==> c.will.value.qos <= 2
  {
    EncodeBinary(ProtocolName(protocol)) + [Level(protocol), Flags(c)] + EncodeUint16(c.keepalive) + PropertyBlock(protocol, ps)
  }

  function WillBytes(protocol: Protocol, will: Option<Will>): seq<byte> {
    match will
    case None => []
    case Some(w) => PropertyBlock(protocol, w.properties) + EncodeBinary(w.topic) + EncodeBinary(w.payload)
  }

  function Optional(s: Option<seq<byte>>): seq<byte> { if s.Some? then EncodeBinary(s.value) else [] }

  function TextOf(s: Option<seq<byte>>): seq<byte> { if s.Some? then s.value else [] }

  function Payload(protocol: Protocol, c: Connect): seq<byte> {
    EncodeBinary(TextOf(c.id)) + WillBytes(protocol, c.will) + Optional(c.username) + Optional(c.password)
  }

  function ConnectBody(protocol: Protocol, c: Connect, inflightMaximum: uint16): seq<byte>
    requires c.will.Some? ==> c.will.value.qos <= 2
  {
    Header(protocol, c, SentProperties(protocol, c.properties, inflightMaximum)) + Payload(protocol, c)
  }

  // ---------- printing ----------

  predicate OptionFits(s: Option<seq<byte>>) { s.Some? ==> Fits(s.value) }

  predicate WillSendable(protocol: Protocol, w: Will) { w.qos <= 2 && (protocol == V5 ==> PropertiesFit(w.properties)) }

  predicate WillPrintable(protocol: Protocol, w: Will) { WillSendable(protocol, w) && Fits(w.topic) && Fits(w.payload) }

  /** What the client sees to before it connects. */
  predicate Sendable(protocol: Protocol, c: Connect, inflightMaximum: uint16) {
    && (c.will.Some? ==> WillSendable(protocol, c.will.value))
    && (protocol == V5 ==> PropertiesFit(SentProperties(protocol, c.properties, inflightMaximum)))
  }

  /** And every field fits its length field. */
  predicate Printable(protocol: Protocol, c: Connect, inflightMaximum: uint16) {
    && Sendable(protocol, c, inflightMaximum)
    && OptionFits(c.id) && OptionFits(c.username) && OptionFits(c.password)
    && (c.will.Some? ==> Fits(c.will.value.topic) && Fits(c.will.value.payload))
  }

  /** How much of a string its 16-bit length field cuts off. */
  function Cut(s: seq<byte>): nat { |s| - |s| % 0x1_0000 }

  /** What is counted in the length of the packet but not written into it. */
  function CutAll(c: Connect): nat {
    Cut(TextOf(c.id)) + (if c.will.Some? then Cut(c.will.value.topic) + Cut(c.will.value.payload) else 0)
    + Cut(TextOf(c.username)) + Cut(TextOf(c.password))
  }

  /** Nothing, exactly if every field fits its length field. */
  lemma CutNothing(protocol: Protocol, c: Connect, inflightMaximum: uint16)
    requires Sendable(protocol, c, inflightMaximum)
    ensures CutAll(c) == 0 <==> Printable(protocol, c, inflightMaximum)
  {
    hide Sendable;
  }

  /** A client identifier of 65536 bytes is counted and written as an empty one. */
  lemma LongIdentifierCut(id: seq<byte>)
    requires |id| == 65536
    ensures var c := Connect(Some(id), None, None, None, 60, true, []);
            && Sendable(V311, c, 20) && CutAll(c) == 65536
            && Payload(V311, c) == EncodeBinary([])
  {
    assert id[..0] == [];
  }

  lemma BinarySize(s: seq<byte>)
    ensures |EncodeBinary(s)| == 2 + |s| - Cut(s)
    ensures Fits(s) ==> |EncodeBinary(s)| == 2 + |s|
  {
  }

  lemma PropertiesSplit(ps: seq<Property>, qs: seq<Property>)
    requires PropertiesFit(ps + qs)
    ensures PropertiesFit(ps) && PropertiesFit(qs)
    ensures EncodeProperties(ps + qs) == EncodeProperties(ps) + EncodeProperties(qs)
  {
    EncodeAllConcat(EncodeProperty, ps, qs);
    forall p | p in ps ensures Encodable(p) { assert p in ps + qs; }
    forall p | p in qs ensures Encodable(p) { assert p in ps + qs; }
  }

  lemma HeaderSize(protocol: Protocol, c: Connect, ps: seq<Property>)
    requires c.will.Some? ==> c.will.value.qos <= 2
    ensures |Header(protocol, c, ps)| == (if protocol == V31 then 12 else 10) + |PropertyBlock(protocol, ps)|
    ensures protocol != V5 ==> PropertyBlock(protocol, ps) == []
  {
  }

  /** The length computed for the variable header. */
  method HeaderLength(protocol: Protocol, c: Connect, inflightMaximum: uint16)
    returns (headerlen: nat, proplen: nat, localProps: seq<Property>, receiveMaximum: Option<uint16>)
    requires Sendable(protocol, c, inflightMaximum)
    ensures headerlen == |Header(protocol, c, SentProperties(protocol, c.properties, inflightMaximum))| < 0x2000_0000
    ensures localProps == LocalProperties(protocol, c.properties, inflightMaximum)
    ensures protocol == V5 ==> proplen == |EncodeProperties(c.properties + localProps)|
    ensures receiveMaximum == if protocol == V5 then ReceiveMaximumOf(c.properties) else None
  {
    HeaderSize(protocol, c, SentProperties(protocol, c.properties, inflightMaximum));
    hide EncodeProperties, EncodeVarint, PropertyBlock, PropertiesFit, Header;
    localProps, proplen, receiveMaximum := [], 0, None;
    if protocol == V5 {
      receiveMaximum := ReceiveMaximumOf(c.properties);
      if receiveMaximum == None {
        localProps := [Property(RECEIVE_MAXIMUM, Int16(inflightMaximum))];
      }
      headerlen := 10;
      PropertiesSplit(c.properties, localProps);
      var a := EncodedLength(c.properties);
      var b := EncodedLength(localProps);
      proplen := a + b;
      var varbytes := VarintBytes(proplen);
      headerlen := headerlen + proplen + varbytes;
      PropertyBlockLength(protocol, c.properties + localProps);
    } else if protocol == V311 {
      headerlen := 10;
    } else {
      headerlen := 12;
    }
  }

  /** The length computed for the payload. */
  method PayloadLength(protocol: Protocol, c: Connect) returns (payloadlen: nat)
    requires c.will.Some? ==> WillSendable(protocol, c.will.value)
    ensures payloadlen == |Payload(protocol, c)| + CutAll(c)
  {
    hide EncodeBinary, EncodeProperties, EncodeVarint, PropertyBlock, PropertiesFit, Cut;
    PayloadSize(protocol, c);
    payloadlen := if c.id.Some? then 2 + |c.id.value| else 2;
    if c.will.Some? {
      var w := c.will.value;
      payloadlen := payloadlen + 2 + |w.topic| + 2 + |w.payload|;
      if protocol == V5 {
        var willProplen := EncodedLength(w.properties);
        payloadlen := payloadlen + willProplen + VarintBytes(willProplen);
      } else {
        NoBlock(protocol, w.properties);
      }
    }
    if c.username.Some? { payloadlen := payloadlen + 2 + |c.username.value|; }
    if c.password.Some? { payloadlen := payloadlen + 2 + |c.password.value|; }
  }

  lemma PayloadSize(protocol: Protocol, c: Connect)
    ensures |Payload(protocol, c)| + CutAll(c) ==
            2 + |TextOf(c.id)|
            + (match c.will
               case None => 0
               case Some(w) => |PropertyBlock(protocol, w.properties)| + 2 + |w.topic| + 2 + |w.payload|)
            + (if c.username.Some? then 2 + |c.username.value| else 0)
            + (if c.password.Some? then 2 + |c.password.value| else 0)
  {
    hide EncodeBinary, PropertyBlock, Cut;
    BinarySize(TextOf(c.id));
    BinarySize(TextOf(c.username));
    BinarySize(TextOf(c.password));
    EmptyCut();
    if c.will.Some? {
      BinarySize(c.will.value.topic);
      BinarySize(c.will.value.payload);
    }
  }

  lemma EmptyCut()
    ensures Cut([]) == 0
  {
  }

  lemma NoBlock(protocol: Protocol, ps: seq<Property>)
    requires protocol != V5
    ensures PropertyBlock(protocol, ps) == []
  {
  }

  method FillHeader(packet: Packet, protocol: Protocol, c: Connect, proplen: nat, localProps: seq<Property>)
    requires c.will.Some? ==> c.will.value.qos <= 2
    requires protocol == V5 ==> PropertiesFit(c.properties + localProps)
    requires protocol == V5 ==> proplen == |EncodeProperties(c.properties + localProps)|
    requires packet.Room(|Header(protocol, c, c.properties + localProps)|)
    modifies packet`pos, packet.payload
    ensures packet.Writable()
    ensures packet.Written() == old(packet.Written()) + Header(protocol, c, c.properties + localProps)
  {
    hide EncodeBinary, PropertyBlock, PropertiesFit, Flags;
    ghost var w := packet.Written();
    ghost var name, b := EncodeBinary(ProtocolName(protocol)), PropertyBlock(protocol, c.properties + localProps);
    assert Fits(ProtocolName(protocol)) && |name| == 2 + |ProtocolName(protocol)|;
    packet.WriteString(ProtocolName(protocol));
    packet.WriteByte(Level(protocol));
    packet.WriteByte(Flags(c));
    packet.WriteUint16(c.keepalive);
    ghost var k := EncodeUint16(c.keepalive);
    hide EncodeUint16, ProtocolName, Level;
    assert packet.Written() == w + (name + [Level(protocol), Flags(c)] + k);
    FillProperties(packet, protocol, c.properties, localProps, proplen);
    ConcatAssoc(w, name + [Level(protocol), Flags(c)] + k, b);
  }

  method FillProperties(packet: Packet, protocol: Protocol, ps: seq<Property>, localProps: seq<Property>, proplen: nat)
    requires protocol == V5 ==> PropertiesFit(ps + localProps) && proplen == |EncodeProperties(ps + localProps)|
    requires packet.Room(|PropertyBlock(protocol, ps + localProps)|)
    modifies packet`pos, packet.payload
    ensures packet.Writable() && packet.Written() == old(packet.Written()) + PropertyBlock(protocol, ps + localProps)
  {
    hide EncodeVarint, EncodeProperties, PropertiesFit, EncodeAll, ListOutput, ListResult, CountedAll, Storable;
    if protocol == V5 {
      PropertiesSplit(ps, localProps);
      WrittenWhole(ps);
      WrittenWhole(localProps);
      ghost var w, n, a, b := packet.Written(), EncodeVarint(proplen), EncodeProperties(ps), EncodeProperties(localProps);
      BlockOfTwo(w, n, a, b);
      assert PropertyBlock(protocol, ps + localProps) == n + (a + b);
      hide PropertyBlock;
      var rc := packet.WriteVarint(proplen);
      rc := WriteAll(packet, ps, false);
      rc := WriteAll(packet, localProps, false);
    }
  }

  lemma BlockOfTwo(w: seq<byte>, n: seq<byte>, a: seq<byte>, b: seq<byte>)
    ensures w + n + a + b == w + (n + (a + b))
  {
  }

  method FillWill(packet: Packet, protocol: Protocol, will: Option<Will>)
    requires will.Some? ==> WillSendable(protocol, will.value)
    requires packet.Room(|WillBytes(protocol, will)|)
    modifies packet`pos, packet.payload
    ensures packet.Writable() && packet.Written() == old(packet.Written()) + WillBytes(protocol, will)
  {
    hide EncodeBinary, PropertyBlock, PropertiesFit;
    if will.Some? {
      var m := will.value;
      ghost var w, b, t, y := packet.Written(), PropertyBlock(protocol, m.properties), EncodeBinary(m.topic), EncodeBinary(m.payload);
      WillParts(w, b, t, y);
      if protocol == V5 { WriteWithLength(packet, m.properties); } else { NoBlock(protocol, m.properties); }
      assert packet.Written() == w + b;
      packet.WriteString(m.topic);
      packet.WriteString(m.payload);
    }
  }

  lemma WillParts(w: seq<byte>, b: seq<byte>, t: seq<byte>, y: seq<byte>)
    ensures |b + t + y| == |b| + |t| + |y| && w + b + t + y == w + (b + t + y)
  {
  }

  method FillOptional(packet: Packet, s: Option<seq<byte>>)
    requires packet.Room(|Optional(s)|)
    modifies packet`pos, packet.payload
    ensures packet.Writable() && packet.Written() == old(packet.Written()) + Optional(s)
  {
    if s.Some? { packet.WriteString(s.value); }
  }

  method FillPayload(packet: Packet, protocol: Protocol, c: Connect)
    requires c.will.Some? ==> WillSendable(protocol, c.will.value)
    requires packet.Room(|Payload(protocol, c)|)
    modifies packet`pos, packet.payload
    ensures packet.Writable() && packet.Written() == old(packet.Written()) + Payload(protocol, c)
  {
    ghost var w := packet.Written();
    ghost var i, m, u, p := EncodeBinary(TextOf(c.id)), WillBytes(protocol, c.will), Optional(c.username), Optional(c.password);
    assert EncodeBinary([]) == EncodeUint16(0);
    hide EncodeBinary, EncodeUint16, WillBytes, WillSendable, Optional;
    if c.id.Some? { packet.WriteString(c.id.value); } else { packet.WriteUint16(0); }
    assert packet.Written() == w + i;
    FillWill(packet, protocol, c.will);
    FillOptional(packet, c.username);
    FillOptional(packet, c.password);
    ConcatFour(w, i, m, u, p);
  }

  /** send__connect, up to the point where the packet is queued. A Receive Maximum
      chosen by the application is reported back. The length is that of the whole
      strings, so the packet is filled exactly when none of them is cut. */
  method SendConnect(protocol: Protocol, c: Connect, inflightMaximum: uint16)
    returns (rc: int, packet: Packet?, receiveMaximum: Option<uint16>)
    requires Sendable(protocol, c, inflightMaximum)
    requires |ConnectBody(protocol, c, inflightMaximum)| + CutAll(c) <= 0x7FFF_FFFF
    ensures rc == (if protocol == V31 && c.id.None? then ERR_PROTOCOL
                   else if protocol != V5 && c.password.Some? && c.username.None? then ERR_INVAL
                   else if |ConnectBody(protocol, c, inflightMaximum)| + CutAll(c) > MAX_VARINT then ERR_PAYLOAD_SIZE
                   else SUCCESS)
    ensures receiveMaximum == if protocol == V5 then ReceiveMaximumOf(c.properties) else None
    ensures rc == SUCCESS ==>
              && packet != null && fresh(packet) && fresh(packet.payload)
              && CutShort(packet, 0x10, ConnectBody(protocol, c, inflightMaximum), CutAll(c))
    ensures rc == SUCCESS ==>
              (Filled(packet, 0x10, ConnectBody(protocol, c, inflightMaximum)) <==> Printable(protocol, c, inflightMaximum))
  {
    hide EncodeVarint, PropertiesFit, Header, Payload, SentProperties, Filled, CutAll, WillSendable, Sendable, Printable;
    CutNothing(protocol, c, inflightMaximum);
    receiveMaximum := None;
    if protocol == V31 && c.id == None { return ERR_PROTOCOL, null, None; }
    SendableParts(protocol, c, inflightMaximum);
    var headerlen, proplen, localProps;
    headerlen, proplen, localProps, receiveMaximum := HeaderLength(protocol, c, inflightMaximum);
    var payloadlen := PayloadLength(protocol, c);
    if protocol == V31 || protocol == V311 {
      if c.password != None && c.username == None { return ERR_INVAL, null, None; }
    }
    ghost var body := ConnectBody(protocol, c, inflightMaximum);
    assert headerlen + payloadlen == |body| + CutAll(c);
    packet := new Packet(CMD_CONNECT, headerlen + payloadlen);
    rc := packet.Alloc();
    if rc != SUCCESS { return rc, null, receiveMaximum; }
    SentAre(protocol, c, inflightMaximum);
    ghost var w := packet.Written();
    FillHeader(packet, protocol, c, proplen, localProps);
    FillPayload(packet, protocol, c);
    ConcatAssoc(w, Header(protocol, c, c.properties + localProps), Payload(protocol, c));
    CutShortFilled(packet, CMD_CONNECT, body, CutAll(c));
  }

  lemma SendableParts(protocol: Protocol, c: Connect, inflightMaximum: uint16)
    requires Sendable(protocol, c, inflightMaximum)
    ensures c.will.Some? ==> WillSendable(protocol, c.will.value) && c.will.value.qos <= 2
    ensures protocol == V5 ==> PropertiesFit(SentProperties(protocol, c.properties, inflightMaximum))
  {
  }

  /** A packet that is longer than what has been written into it. */
  ghost predicate CutShort(packet: Packet, command: byte, body: seq<byte>, missing: nat)
    reads packet, packet.payload
  {
    && packet.Writable() && packet.pos + missing == packet.packetLength
    && packet.Written() == [command] + EncodeVarint(|body| + missing) + body
    && |body| + missing <= MAX_VARINT
  }

  lemma CutShortFilled(packet: Packet, command: byte, body: seq<byte>, missing: nat)
    requires CutShort(packet, command, body, missing)
    ensures Filled(packet, command, body) <==> missing == 0
  {
    hide EncodeVarint;
    if missing == 0 { WholeFrame(packet, command, body); }
  }

  lemma SentAre(protocol: Protocol, c: Connect, inflightMaximum: uint16)
    ensures SentProperties(protocol, c.properties, inflightMaximum) == c.properties + LocalProperties(protocol, c.properties, inflightMaximum)
  {
  }

  // ---------- reading it as the standard says ----------

  /** The variable header. */
  datatype Head = Head(protocol: Protocol, flags: byte, keepalive: uint16, properties: seq<Property>)

  datatype Tail = Tail(id: seq<byte>, will: Option<Will>, username: Option<seq<byte>>, password: Option<seq<byte>>)

  /** Names and levels as sections 3.1.2.1 and 3.1.2.2 give them: "MQTT", and
      "MQIsdp" in version 3.1. */
  function ProtocolOf(name: seq<byte>, level: byte): Option<Protocol> {
    if name == [77, 81, 73, 115, 100, 112] && level == 3 then Some(V31)
    else if name == [77, 81, 84, 84] && level == 4 then Some(V311)
    else if name == [77, 81, 84, 84] && level == 5 then Some(V5)
    else None
  }

  function BitOf(flags: byte, weight: nat): bool
    requires weight > 0
  {
    flags / weight % 2 == 1
  }

  ghost function HeadAt(buf: seq<byte>): Parsed<Head> {
    match BinaryAt(buf, 0)
    case Failed(rc) => Failed(rc)
    case Parsed(name, p) =>
      if p + 4 > |buf| then Failed(ERR_PROTOCOL)
      else
        match ProtocolOf(name, buf[p])
        case None => Failed(ERR_PROTOCOL)
        case Some(protocol) => RestOfHeadAt(protocol, buf[p + 1], buf, p + 2)
  }

  ghost function RestOfHeadAt(protocol: Protocol, flags: byte, buf: seq<byte>, pos: nat): Parsed<Head> {
    match Uint16At(buf, pos)
    case Failed(rc) => Failed(rc)
    case Parsed(keepalive, q) =>
      match BlockAt(protocol, CMD_CONNECT, buf, q)
      case Failed(rc) => Failed(rc)
      case Parsed(ps, next) => Parsed(Head(protocol, flags, keepalive, ps), next)
  }

  ghost function WillAt(protocol: Protocol, flags: byte, buf: seq<byte>, pos: nat): Parsed<Option<Will>> {
    if !BitOf(flags, 4) then Parsed(None, pos)
    else
      match BlockAt(protocol, CMD_WILL, buf, pos)
      case Failed(rc) => Failed(rc)
      case Parsed(ps, p) =>
        match StringAt(buf, p)
        case Failed(rc) => Failed(rc)
        case Parsed(topic, q) =>
          match BinaryAt(buf, q)
          case Failed(rc) => Failed(rc)
          case Parsed(payload, next) => Parsed(Some(Will(topic, payload, flags / 8 % 4, BitOf(flags, 32), ps)), next)
  }

  ghost function OptionalAt(present: bool, buf: seq<byte>, pos: nat): Parsed<Option<seq<byte>>> {
    if !present then Parsed(None, pos)
    else
      match BinaryAt(buf, pos)
      case Failed(rc) => Failed(rc)
      case Parsed(s, next) => Parsed(Some(s), next)
  }

  ghost function LoginAt(flags: byte, buf: seq<byte>, pos: nat): Parsed<(Option<seq<byte>>, Option<seq<byte>>)> {
    match OptionalAt(BitOf(flags, 128), buf, pos)
    case Failed(rc) => Failed(rc)
    case Parsed(username, r) =>
      match OptionalAt(BitOf(flags, 64), buf, r)
      case Failed(rc) => Failed(rc)
      case Parsed(password, next) => Parsed((username, password), next)
  }

  ghost function TailAt(protocol: Protocol, flags: byte, buf: seq<byte>, pos: nat): Parsed<Tail> {
    match StringAt(buf, pos)
    case Failed(rc) => Failed(rc)
    case Parsed(id, p) =>
      match WillAt(protocol, flags, buf, p)
      case Failed(rc) => Failed(rc)
      case Parsed(will, q) =>
        match LoginAt(flags, buf, q)
        case Failed(rc) => Failed(rc)
        case Parsed(login, next) => Parsed(Tail(id, will, login.0, login.1), next)
  }

  /** A whole CONNECT packet body, with nothing left over. */
  ghost function ConnectAt(buf: seq<byte>): Parsed<(Protocol, Connect)> {
    match HeadAt(buf)
    case Failed(rc) => Failed(rc)
    case Parsed(h, p) =>
      match TailAt(h.protocol, h.flags, buf, p)
      case Failed(rc) => Failed(rc)
      case Parsed(t, next) =>
        if next != |buf| then Failed(ERR_PROTOCOL)
        else Parsed((h.protocol, Connect(Some(t.id), t.username, t.password, t.will, h.keepalive,
                                         BitOf(h.flags, 2), h.properties)), next)
  }

  /** Texts are valid and properties are in their place. */
  ghost predicate Sound(protocol: Protocol, c: Connect) {
    && ValidText(TextOf(c.id))
    && (c.will.Some? ==> ValidText(c.will.value.topic))
    && (protocol == V5 ==> AllGood(c.properties) && Acceptable(CMD_CONNECT, c.properties))
    && (protocol == V5 && c.will.Some? ==>
          AllGood(c.will.value.properties) && Acceptable(CMD_WILL, c.will.value.properties))
  }

  function WillSeen(protocol: Protocol, will: Option<Will>): Option<Will> {
    match will
    case None => None
    case Some(w) => Some(w.(properties := if protocol == V5 then w.properties else []))
  }

  lemma FlagBits(c: Connect)
    requires c.will.Some? ==> c.will.value.qos <= 2
    ensures var f := Flags(c);
            && BitOf(f, 2) == c.clean && BitOf(f, 4) == c.will.Some?
            && BitOf(f, 64) == c.password.Some? && BitOf(f, 128) == c.username.Some?
            && (c.will.Some? ==> f / 8 % 4 == c.will.value.qos && BitOf(f, 32) == c.will.value.retain)
  {
  }

  lemma HeadRoundTrip(protocol: Protocol, c: Connect, ps: seq<Property>, buf: seq<byte>)
    requires c.will.Some? ==> c.will.value.qos <= 2
    requires protocol == V5 ==> PropertiesFit(ps) && AllGood(ps) && Acceptable(CMD_CONNECT, ps)
    requires Holds(buf, 0, Header(protocol, c, ps))
    ensures HeadAt(buf) == Parsed(Head(protocol, Flags(c), c.keepalive, if protocol == V5 then ps else []), |Header(protocol, c, ps)|)
  {
    hide AllGood, Acceptable, PropertiesFit, PropertyBlock, Flags, BlockAt;
    var n, lf, k, b := EncodeBinary(ProtocolName(protocol)), [Level(protocol), Flags(c)], EncodeUint16(c.keepalive), PropertyBlock(protocol, ps);
    HoldsSlice(buf, 0, n + lf + k, b);
    HoldsSlice(buf, 0, n + lf, k);
    HoldsSlice(buf, 0, n, lf);
    var p := |n|;
    BinaryExact(buf, 0, ProtocolName(protocol), p);
    assert buf[p..p + 2] == lf;
    assert buf[p] == Level(protocol) && buf[p + 1] == Flags(c) by { assert buf[p..p + 2][0] == lf[0] && buf[p..p + 2][1] == lf[1]; }
    assert ProtocolOf(ProtocolName(protocol), Level(protocol)) == Some(protocol);
    hide EncodeBinary, ProtocolOf, Level, ProtocolName, EncodeUint16, Header;
    Uint16Exact(buf, p + 2, c.keepalive, p + 4);
    BlockRoundTrip(protocol, CMD_CONNECT, buf, p + 4, ps);
  }

  lemma WillRoundTrip(protocol: Protocol, w: Will, flags: byte, buf: seq<byte>, pos: nat)
    requires WillPrintable(protocol, w) && ValidText(w.topic)
    requires protocol == V5 ==> AllGood(w.properties) && Acceptable(CMD_WILL, w.properties)
    requires BitOf(flags, 4) && flags / 8 % 4 == w.qos && BitOf(flags, 32) == w.retain
    requires Holds(buf, pos, WillBytes(protocol, Some(w)))
    ensures WillAt(protocol, flags, buf, pos) == Parsed(WillSeen(protocol, Some(w)), pos + |WillBytes(protocol, Some(w))|)
  {
    hide AllGood, Acceptable, PropertiesFit, PropertyBlock, BlockAt, BitOf, Holds, StringAt, BinaryAt, ValidText, EncodeBinary;
    var b, t, y := PropertyBlock(protocol, w.properties), EncodeBinary(w.topic), EncodeBinary(w.payload);
    BinarySize(w.topic);
    BinarySize(w.payload);
    HoldsThree(buf, pos, b, t, y);
    BlockRoundTrip(protocol, CMD_WILL, buf, pos, w.properties);
    StringExact(buf, pos + |b|, w.topic, pos + |b| + |t|);
    BinaryExact(buf, pos + |b| + |t|, w.payload, pos + |b| + |t| + |y|);
  }

  /** The same for a client with or without a will. */
  lemma OptionalWillRoundTrip(protocol: Protocol, c: Connect, buf: seq<byte>, pos: nat)
    requires c.will.Some? ==> WillPrintable(protocol, c.will.value)
    requires Sound(protocol, c) && Holds(buf, pos, WillBytes(protocol, c.will))
    ensures WillAt(protocol, Flags(c), buf, pos) == Parsed(WillSeen(protocol, c.will), pos + |WillBytes(protocol, c.will)|)
  {
    FlagBits(c);
    hide Flags, Holds, AllGood, Acceptable, PropertiesFit, BlockAt, StringAt, BinaryAt, ValidText;
    match c.will
    case None =>
    case Some(w) =>
      hide WillAt, WillSeen, WillBytes, WillPrintable;
      WillRoundTrip(protocol, w, Flags(c), buf, pos);
  }

  lemma OptionalRoundTrip(s: Option<seq<byte>>, buf: seq<byte>, pos: nat)
    requires OptionFits(s) && Holds(buf, pos, Optional(s))
    ensures OptionalAt(s.Some?, buf, pos) == Parsed(s, pos + |Optional(s)|)
  {
    hide EncodeBinary;
    if s.Some? { BinaryExact(buf, pos, s.value, pos + |Optional(s)|); }
  }

  lemma LoginRoundTrip(c: Connect, buf: seq<byte>, pos: nat)
    requires OptionFits(c.username) && OptionFits(c.password)
    requires c.will.Some? ==> c.will.value.qos <= 2
    requires Holds(buf, pos, Optional(c.username)) && Holds(buf, pos + |Optional(c.username)|, Optional(c.password))
    ensures LoginAt(Flags(c), buf, pos) ==
            Parsed((c.username, c.password), pos + |Optional(c.username)| + |Optional(c.password)|)
  {
    hide Flags, BitOf, OptionalAt, Optional, Holds, OptionFits;
    FlagBits(c);
    OptionalRoundTrip(c.username, buf, pos);
    OptionalRoundTrip(c.password, buf, pos + |Optional(c.username)|);
  }

  lemma TailRoundTrip(protocol: Protocol, c: Connect, buf: seq<byte>, pos: nat)
    requires OptionFits(c.id) && OptionFits(c.username) && OptionFits(c.password)
    requires c.will.Some? ==> WillPrintable(protocol, c.will.value)
    requires Sound(protocol, c) && Holds(buf, pos, Payload(protocol, c))
    ensures TailAt(protocol, Flags(c), buf, pos) ==
            Parsed(Tail(TextOf(c.id), WillSeen(protocol, c.will), c.username, c.password), pos + |Payload(protocol, c)|)
  {
    hide Holds, EncodeBinary, WillBytes, Optional, Flags, WillAt, StringAt, LoginAt, WillSeen, ValidText, AllGood, Acceptable;
    var i, m, u, p := EncodeBinary(TextOf(c.id)), WillBytes(protocol, c.will), Optional(c.username), Optional(c.password);
    HoldsThree(buf, pos, i + m, u, p);
    HoldsSlice(buf, pos, i, m);
    BinarySize(TextOf(c.id));
    StringExact(buf, pos, TextOf(c.id), pos + |i|);
    OptionalWillRoundTrip(protocol, c, buf, pos + |i|);
    LoginRoundTrip(c, buf, pos + |i| + |m|);
  }

  /** With the added Receive Maximum the list is still acceptable. */
  lemma SentAcceptable(ps: seq<Property>, inflightMaximum: uint16)
    requires AllGood(ps) && Acceptable(CMD_CONNECT, ps) && inflightMaximum != 0
    ensures var sent := SentProperties(V5, ps, inflightMaximum); AllGood(sent) && Acceptable(CMD_CONNECT, sent)
  {
  }

  /** A reader that follows the standard finds in the packet every field that the
      client was given, in its place, and nothing else; a missing client
      identifier reads as an empty one. */
  lemma ConnectRoundTrip(protocol: Protocol, c: Connect, inflightMaximum: uint16)
    requires Printable(protocol, c, inflightMaximum) && Sound(protocol, c) && inflightMaximum != 0
    ensures var body := ConnectBody(protocol, c, inflightMaximum);
            ConnectAt(body) ==
            Parsed((protocol, c.(id := Some(TextOf(c.id)), will := WillSeen(protocol, c.will),
                                 properties := if protocol == V5 then SentProperties(V5, c.properties, inflightMaximum) else [])),
                   |body|)
  {
    var ps := SentProperties(protocol, c.properties, inflightMaximum);
    var h, y := Header(protocol, c, ps), Payload(protocol, c);
    assert ConnectBody(protocol, c, inflightMaximum) == h + y;
    assert Holds(h + y, 0, h) && Holds(h + y, |h|, y);
    FlagBits(c);
    if protocol == V5 { SentAcceptable(c.properties, inflightMaximum); }
    hide SentProperties, AllGood, Acceptable, PropertiesFit, Header, Payload, Flags, TailAt, HeadAt, Holds, BitOf;
    HeadRoundTrip(protocol, c, ps, h + y);
    TailRoundTrip(protocol, c, h + y, |h|);
  }
}
