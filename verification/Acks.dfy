/**
 * PUBACK, PUBREC, PUBREL and PUBCOMP (sections 3.4 to 3.7 of MQTT Version 5.0):
 * built by send__command_with_mid, read by the acknowledgement handlers.
 */
module Acks {
  import opened Mqtt
  import opened Wire
  import opened Packets
  import opened Framing
  import opened Repetition
  import opened Properties
  import opened Building
  import opened Delivery

  /** Reason code and properties; a reason of 0 without properties is left out.
      An empty list stands for a null pointer. */
  function AckTail(protocol: Protocol, reason: byte, ps: seq<Property>): seq<byte> {
    if protocol != V5 || (reason == 0 && ps == []) then []
    else [reason] + if ps == [] then [] else PropertyBlock(V5, ps)
  }

  function AckBody(protocol: Protocol, mid: uint16, reason: byte, ps: seq<Property>): seq<byte> {
    EncodeUint16(mid) + AckTail(protocol, reason, ps)
  }

  function WithDup(command: byte, dup: bool): byte {
    if dup && command / 8 % 2 == 0 then command + 8 else command
  }

  /** send__command_with_mid, up to the point where the packet is queued. */
  method SendCommandWithMid(protocol: Protocol, command: byte, mid: uint16, dup: bool, reason: byte, ps: seq<Property>)
    returns (rc: int, packet: Packet)
    requires protocol == V5 ==> PropertiesFit(ps)
    ensures fresh(packet)
    ensures rc == (if |AckBody(protocol, mid, reason, ps)| > MAX_VARINT then ERR_PAYLOAD_SIZE else SUCCESS)
    ensures rc == SUCCESS ==>
              fresh(packet.payload) && Filled(packet, WithDup(command, dup), AckBody(protocol, mid, reason, ps))
  {
    hide PropertiesFit, EncodeProperties, EncodeVarint, PropertyBlock;
    var remainingLength := 2;
    if protocol == V5 {
      if reason != 0 || ps != [] { remainingLength := remainingLength + 1; }
      if ps != [] {
        var proplen := EncodedLength(ps);
        remainingLength := remainingLength + VarintBytes(proplen) + proplen;
      }
    }
    assert remainingLength == |AckBody(protocol, mid, reason, ps)|;
    packet := new Packet(WithDup(command, dup), remainingLength);
    rc := packet.Alloc();
    if rc != SUCCESS { return; }
    FillAck(packet, protocol, mid, reason, ps);
    WholeFrame(packet, WithDup(command, dup), AckBody(protocol, mid, reason, ps));
  }

  method FillTail(packet: Packet, protocol: Protocol, reason: byte, ps: seq<Property>)
    requires protocol == V5 ==> PropertiesFit(ps)
    requires packet.Room(|AckTail(protocol, reason, ps)|)
    modifies packet`pos, packet.payload
    ensures packet.Writable() && packet.Written() == old(packet.Written()) + AckTail(protocol, reason, ps)
  {
    hide PropertiesFit, PropertyBlock;
    if protocol == V5 {
      ghost var w := packet.Written();
      ConcatAssoc(w, [reason], PropertyBlock(V5, ps));
      if reason != 0 || ps != [] { packet.WriteByte(reason); }
      if ps != [] { WriteWithLength(packet, ps); }
    }
  }

  method FillAck(packet: Packet, protocol: Protocol, mid: uint16, reason: byte, ps: seq<Property>)
    requires protocol == V5 ==> PropertiesFit(ps)
    requires packet.Room(|AckBody(protocol, mid, reason, ps)|)
    modifies packet`pos, packet.payload
    ensures packet.Writable() && packet.Written() == old(packet.Written()) + AckBody(protocol, mid, reason, ps)
  {
    hide PropertiesFit, AckTail;
    ConcatAssoc(packet.Written(), EncodeUint16(mid), AckTail(protocol, reason, ps));
    packet.WriteUint16(mid);
    FillTail(packet, protocol, reason, ps);
  }

  // ---------- reading ----------

  /** What the handlers read, as a function of the packet. */
  ghost function AckAt(protocol: Protocol, command: int, body: seq<byte>): Ack {
    match Uint16At(body, 0)
    case Failed(rc) => BadAck(rc)
    case Parsed(mid, _) =>
      if mid == 0 then BadAck(ERR_PROTOCOL)
      else if protocol != V5 || |body| <= 2 then Ack(mid, 0)
      else if |body| <= 3 then Ack(mid, body[2])
      else
        match PropertiesAt(command, body, 3)
        case Failed(rc) => BadAck(rc)
        case Parsed(_, _) => Ack(mid, body[2])
  }

  /** The reading part of handle__pubackcomp, handle__pubrec and handle__pubrel. */
  method ReadAck(protocol: Protocol, command: int, packet: Packet) returns (rc: int, mid: uint16, reason: byte)
    requires packet.Readable() && packet.pos == 0
    modifies packet`pos
    ensures match AckAt(protocol, command, packet.Received())
            case Ack(m, r) => rc == SUCCESS && mid == m && reason == r && mid != 0
            case BadAck(e) => rc == e && rc != SUCCESS
  {
    hide PropertiesAt;
    reason := 0;
    rc, mid := packet.ReadUint16();
    if rc != SUCCESS { return; }
    if mid == 0 { return ERR_PROTOCOL, mid, reason; }
    if protocol == V5 && packet.remainingLength > 2 {
      rc, reason := packet.ReadByte();
      if rc != SUCCESS { return; }
      if packet.remainingLength > 3 {
        var properties;
        rc, properties := ReadAll(command, packet);
      }
    }
  }

  /** The acknowledgement packets that are accepted: an identifier, alone or with a
      reason, or with a reason and a property block, and anything behind that.
      Version 3 looks at the first two bytes only. */
  ghost predicate Laid(protocol: Protocol, command: int, body: seq<byte>, mid: uint16, reason: byte) {
    if protocol != V5 then EncodeUint16(mid) <= body && reason == 0
    else
      || (body == EncodeUint16(mid) && reason == 0)
      || body == EncodeUint16(mid) + [reason]
      || (|body| > 3 && body[..3] == EncodeUint16(mid) + [reason] && exists ps, rest :: BlockLaid(command, body[3..], ps, rest))
  }

  /** The readers accept exactly these packets, apart from identifier 0. */
  lemma AckExact(protocol: Protocol, command: int, body: seq<byte>, mid: uint16, reason: byte)
    ensures AckAt(protocol, command, body) == Ack(mid, reason) <==> mid != 0 && Laid(protocol, command, body, mid, reason)
  {
    hide PropertiesAt, EncodeUint16, BlockLaid;
    Uint16Exact(body, 0, mid, 2);
    if |body| >= 2 { assert body == body[..2] + body[2..]; }
    if |body| >= 3 { assert body[..3] == body[..2] + [body[2]]; }
    if |body| == 3 { assert body == body[..3]; }
    if |body| > 3 { BlockSome(command, body, 3); }
  }

  /** The others fail with an error of their own. */
  lemma AckErrors(protocol: Protocol, command: int, body: seq<byte>)
    ensures match AckAt(protocol, command, body) case BadAck(rc) => ReadError(rc) case _ => true
  {
    hide PropertiesAt;
    ReadErrors(command, body, 3);
  }

  /** The duplicate flag is bit 3; the other bits stay. */
  lemma DupBit(command: byte, dup: bool)
    ensures var c := WithDup(command, dup);
            && c / 16 == command / 16 && c % 8 == command % 8
            && (c / 8 % 2 == 1 <==> dup || command / 8 % 2 == 1)
  {
    var h, l := command / 16, command % 8;
    assert command == 16 * h + 8 * (command / 8 % 2) + l;
  }

  /** How long an acknowledgement is: success without properties is left out, as
      sections 3.4.2.1 and 3.4.2.2.1 allow. */
  lemma AckBodyShape(protocol: Protocol, mid: uint16, reason: byte, ps: seq<Property>)
    ensures var body := AckBody(protocol, mid, reason, ps);
            && Number(body[..2]) == mid
            && (|body| == 2 <==> protocol != V5 || (reason == 0 && ps == []))
            && (|body| == 3 <==> protocol == V5 && reason != 0 && ps == [])
            && (|body| > 2 ==> body[2] == reason)
  {
    BlockNotEmpty(ps);
    BigEndian(mid, 0);
    assert AckBody(protocol, mid, reason, ps)[..2] == EncodeUint16(mid);
    hide Number, EncodeUint16, PropertyBlock;
  }

  /** What one end builds the other end reads. */
  lemma AckRoundTrip(protocol: Protocol, command: int, mid: uint16, reason: byte, ps: seq<Property>)
    requires mid != 0
    requires protocol == V5 ==> PropertiesFit(ps) && AllGood(ps) && Acceptable(command, ps)
    ensures AckAt(protocol, command, AckBody(protocol, mid, reason, ps)) == Ack(mid, if protocol == V5 then reason else 0)
  {
    var body := AckBody(protocol, mid, reason, ps);
    assert Holds(body, 0, EncodeUint16(mid));
    if protocol == V5 && ps != [] {
      var e := PropertyBlock(V5, ps);
      BlockNotEmpty(ps);
      assert body == EncodeUint16(mid) + [reason] + e + [];
      assert Holds(body, 3, e);
      PropertiesRoundTrip(command, body, 3, ps);
    }
    hide PropertiesAt, PropertyBlock, EncodeUint16;
    Uint16Exact(body, 0, mid, 2);
  }

  lemma BlockNotEmpty(ps: seq<Property>)
    ensures |PropertyBlock(V5, ps)| >= 1
  {
  }
}
