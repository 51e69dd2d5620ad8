/**
 * What mosquitto_publish_v5 checks before it accepts a message.
 */
module Admission {
  import opened Mqtt
  import opened Wire
  import opened Properties
  import opened Building
  import opened Publishing
  import Utf8
  import Topics

  const MQTT_MAX_PAYLOAD: nat := 268435455

  /** The limits that the broker has set in CONNACK. */
  datatype Limits = Limits(protocol: Protocol, maximumQos: nat, maximumPacketSize: nat)

  /** Properties from elsewhere are copied one deep: only the first one counts. */
  function OutgoingProperties(ps: seq<Property>, clientGenerated: bool): seq<Property> {
    if clientGenerated || ps == [] then ps else ps[..1]
  }

  predicate HasAlias(ps: seq<Property>) { exists p | p in ps :: p.identifier == TOPIC_ALIAS }

  /** The length compared with the broker's maximum: an estimate with one byte for
      the property length and one, not two, for a packet identifier. */
  function EstimatedLength(topic: seq<byte>, payload: seq<byte>, qos: int, ps: seq<Property>): nat {
    1 + 2 + |topic| + |payload| + |EncodeProperties(ps)| + if qos > 0 then 1 else 0
  }

  ghost function TopicFault(protocol: Protocol, topic: seq<byte>, payload: seq<byte>, ps: seq<Property>): int {
    if topic == [] then
      if protocol == V5 && HasAlias(ps) then SUCCESS else ERR_INVAL
    else if |topic| > 65536 || !Utf8.WellFormed(topic) then ERR_MALFORMED_UTF8
    else if |payload| > MQTT_MAX_PAYLOAD then ERR_PAYLOAD_SIZE
    else if !Topics.ValidTopic(topic) || |topic| > 65535 then ERR_INVAL
    else SUCCESS
  }

  /** The result of the checks; an absent topic counts as an empty one. */
  ghost function PublishFault(limits: Limits, topic: seq<byte>, payload: seq<byte>, qos: int, given: seq<Property>, ps: seq<Property>): int {
    if qos < 0 || qos > 2 then ERR_INVAL
    else if limits.protocol != V5 && given != [] then ERR_NOT_SUPPORTED
    else if qos > limits.maximumQos then ERR_QOS_NOT_SUPPORTED
    else if FirstFault(CMD_PUBLISH, ps) != SUCCESS then FirstFault(CMD_PUBLISH, ps)
    else if TopicFault(limits.protocol, topic, payload, ps) != SUCCESS then TopicFault(limits.protocol, topic, payload, ps)
    else if Oversize(limits.maximumPacketSize, EstimatedLength(topic, payload, qos, ps)) then ERR_OVERSIZE_PACKET
    else SUCCESS
  }

  /** A C string in a buffer of its own. */
  ghost predicate Terminated(str: array?<byte>)
    reads str
  {
    str != null ==> str.Length > 0 && str[str.Length - 1] == 0 && 0 !in str[..str.Length - 1]
  }

  ghost function TopicText(str: array?<byte>): seq<byte>
    requires Terminated(str)
    reads str
  {
    if str == null then [] else str[..str.Length - 1]
  }

  /** The loop that looks for a topic alias. */
  method FindAlias(ps: seq<Property>) returns (have: bool)
    ensures have <==> HasAlias(ps)
  {
    have := false;
    var i := 0;
    while i < |ps|
      invariant i <= |ps| && forall k | 0 <= k < i :: ps[k].identifier != TOPIC_ALIAS
    {
      if ps[i].identifier == TOPIC_ALIAS {
        assert ps[i] in ps;
        return true;
      }
      i := i + 1;
    }
  }

  /** The checks on topic and payload; `tlen` is strlen of the topic. */
  method CheckTopic(protocol: Protocol, topic: array?<byte>, payload: seq<byte>, ps: seq<Property>) returns (rc: int, tlen: nat)
    requires Terminated(topic)
    ensures rc == TopicFault(protocol, TopicText(topic), payload, ps)
    ensures rc == SUCCESS ==> tlen == |TopicText(topic)|
  {
    tlen := 0;
    if topic == null || topic[0] == 0 {
      if protocol == V5 {
        var have := FindAlias(ps);
        if !have { return ERR_INVAL, 0; }
      } else {
        return ERR_INVAL, 0;
      }
    } else {
      tlen := topic.Length - 1;
      Utf8.TerminatedExact(topic[..], tlen);
      var bad := Utf8.Validate(topic, tlen);
      if bad != SUCCESS { return ERR_MALFORMED_UTF8, tlen; }
      if |payload| > MQTT_MAX_PAYLOAD { return ERR_PAYLOAD_SIZE, tlen; }
      assert topic[..][..|topic[..]| - 1] == topic[..tlen];
      bad := Topics.PubTopicCheck(topic[..]);
      if bad != SUCCESS { return ERR_INVAL, tlen; }
    }
    return SUCCESS, tlen;
  }

  /** The checks of mosquitto_publish_v5, in its order. */
  method Admit(limits: Limits, topic: array?<byte>, payload: seq<byte>, qos: int, properties: seq<Property>, clientGenerated: bool)
    returns (rc: int, outgoing: seq<Property>)
    requires Terminated(topic) && forall p | p in properties :: Encodable(p)
    ensures outgoing == OutgoingProperties(properties, clientGenerated)
    ensures rc == PublishFault(limits, TopicText(topic), payload, qos, properties, outgoing)
  {
    hide TopicFault;
    outgoing := OutgoingProperties(properties, clientGenerated);
    if qos < 0 || qos > 2 { return ERR_INVAL, outgoing; }
    if limits.protocol != V5 && properties != [] { return ERR_NOT_SUPPORTED, outgoing; }
    if qos > limits.maximumQos { return ERR_QOS_NOT_SUPPORTED, outgoing; }
    if properties != [] {
      rc := CheckAll(CMD_PUBLISH, outgoing);
      if rc != SUCCESS { return; }
    }
    var tlen;
    rc, tlen := CheckTopic(limits.protocol, topic, payload, outgoing);
    if rc != SUCCESS { return; }
    if limits.maximumPacketSize > 0 {
      EncodableStorable(outgoing);
      WriteAllExact(outgoing);
      var proplen := GetLengthAll(outgoing);
      var remainingLength := 1 + 2 + tlen + |payload| + proplen;
      if qos > 0 { remainingLength := remainingLength + 1; }
      if Oversize(limits.maximumPacketSize, remainingLength) { return ERR_OVERSIZE_PACKET, outgoing; }
    }
    return SUCCESS, outgoing;
  }

  /** Exactly what is admitted. */
  lemma AdmittedExactly(limits: Limits, topic: seq<byte>, payload: seq<byte>, qos: int, given: seq<Property>, clientGenerated: bool)
    ensures var ps := OutgoingProperties(given, clientGenerated);
            PublishFault(limits, topic, payload, qos, given, ps) == SUCCESS <==>
            && 0 <= qos <= 2 && qos <= limits.maximumQos
            && (given == [] || limits.protocol == V5) && Acceptable(CMD_PUBLISH, ps)
            && (if topic == [] then limits.protocol == V5 && HasAlias(ps)
                else Utf8.WellFormed(topic) && Topics.ValidTopic(topic) && |topic| <= 65535 && |payload| <= MQTT_MAX_PAYLOAD)
            && !Oversize(limits.maximumPacketSize, EstimatedLength(topic, payload, qos, ps))
  {
    CheckAllExact(CMD_PUBLISH, OutgoingProperties(given, clientGenerated));
    hide FirstFault, Acceptable;
  }

  /** Which refusal comes of what: each presupposes that none before it applies. */
  lemma RefusalExact(limits: Limits, topic: seq<byte>, payload: seq<byte>, qos: int, given: seq<Property>, clientGenerated: bool)
    ensures var ps := OutgoingProperties(given, clientGenerated);
            var rc := PublishFault(limits, topic, payload, qos, given, ps);
            var named := if topic == [] then limits.protocol == V5 && exists p :: p in ps && p.identifier == 35
                         else Utf8.WellFormed(topic) && |topic| <= 65536;
            && (rc == 10 <==> 0 <= qos <= 2 && limits.protocol != V5 && given != [])
            && (rc == 24 <==> 0 <= qos <= 2 && (limits.protocol == V5 || given == []) && qos > limits.maximumQos)
            && (rc in {10, 24} || !(0 <= qos <= 2) ||
                  if !Acceptable(0x30, ps) then rc in {2, 22}
                  else if topic != [] && !named then rc == 18
                  else if topic != [] && |payload| > 268435455 then rc == 9
                  else if !named || !Topics.ValidTopic(topic) || |topic| > 65535 then rc == 3
                  else rc in {0, 25})
            && (!(0 <= qos <= 2) ==> rc == 3)
  {
    var ps := OutgoingProperties(given, clientGenerated);
    CheckAllExact(CMD_PUBLISH, ps);
    hide FirstFault, Acceptable;
    FaultCodes(ps);
  }

  lemma FaultCodes(ps: seq<Property>)
    ensures FirstFault(CMD_PUBLISH, ps) in {0, 2, 22}
  {
    hide FirstFault;
    if FirstFault(CMD_PUBLISH, ps) != SUCCESS { var k := FaultExact(CMD_PUBLISH, ps); }
  }

  // ---------- from admission to printing ----------

  function MessageOf(topic: seq<byte>, payload: seq<byte>, qos: nat, retain: bool, ps: seq<Property>, mid: uint16, dup: bool): Outgoing {
    Outgoing(mid, if topic == [] then None else Some(topic), payload, qos, retain, dup, ps)
  }

  /** What the estimate misses: the packet identifier has two bytes, the property
      length up to four, and version 3 has none. */
  function Gap(protocol: Protocol, qos: nat, proplen: nat): int {
    (if protocol == V5 then VarintBytes(proplen) - 1 else -1) + if qos > 0 then 1 else 0
  }

  /** The length of the packet that is printed, from the lengths of the parts. */
  function PrintedLength(protocol: Protocol, topic: seq<byte>, payload: seq<byte>, qos: nat, ps: seq<Property>): nat {
    EstimatedLength(topic, payload, qos, ps) + Gap(protocol, qos, |EncodeProperties(ps)|)
  }

  lemma PrintedLengthExact(protocol: Protocol, topic: seq<byte>, payload: seq<byte>, qos: nat, retain: bool,
                           ps: seq<Property>, mid: uint16, dup: bool)
    requires Fits(topic) && PropertiesFit(ps) && (protocol != V5 ==> ps == [])
    ensures |PublishBody(protocol, MessageOf(topic, payload, qos, retain, ps, mid, dup))| == PrintedLength(protocol, topic, payload, qos, ps)
  {
    PropertyBlockLength(protocol, ps);
    hide EncodeVarint;
  }

  /** When an admitted message is printed: exactly when its true length is within
      the protocol's bound and, with its length bytes, within the broker's
      maximum. Otherwise send__real_publish refuses it; a QoS 1 or 2 message then
      stays in the list, marked as handed out, and is refused at every retry. What
      is printed with a topic of its own is read back at the other end. */
  lemma AdmittedComesThrough(limits: Limits, topic: seq<byte>, payload: seq<byte>, qos: nat, given: seq<Property>,
                             clientGenerated: bool, mid: uint16, retain: bool, dup: bool)
    requires var ps := OutgoingProperties(given, clientGenerated);
             && PublishFault(limits, topic, payload, qos, given, ps) == SUCCESS
             && PropertiesFit(ps) && AllGood(ps) && |payload| <= 0x7FFF_FFFF
    requires mid != 0
    ensures var ps := OutgoingProperties(given, clientGenerated);
            var p := MessageOf(topic, payload, qos, retain, ps, mid, dup);
            var n := PrintedLength(limits.protocol, topic, payload, qos, ps);
            && Printable(limits.protocol, p)
            && (PrintResult(limits.maximumPacketSize, |PublishBody(limits.protocol, p)|) == SUCCESS <==>
                  n <= MAX_VARINT && (limits.maximumPacketSize == 0 || n + VarintBytes(n) <= limits.maximumPacketSize))
            && (topic != [] ==>
                  PublishAt(limits.protocol, PublishCommand(p), PublishBody(limits.protocol, p)) == Arrived(limits.protocol, p))
  {
    hide PublishBody, PublishFault, EstimatedLength, PublishAt, PublishCommand, AllGood, Acceptable, PropertiesFit;
    var ps := OutgoingProperties(given, clientGenerated);
    AdmittedExactly(limits, topic, payload, qos, given, clientGenerated);
    PrintedLengthExact(limits.protocol, topic, payload, qos, retain, ps, mid, dup);
    if topic != [] { PublishRoundTrip(limits.protocol, MessageOf(topic, payload, qos, retain, ps, mid, dup)); }
  }

  /** Properties that the client has not made itself, such as those of a message that
      it has received, go out cut down to the first: that one alone is read at the
      other end. */
  lemma ForeignPropertiesCut(limits: Limits, topic: seq<byte>, payload: seq<byte>, qos: nat, given: seq<Property>,
                             mid: uint16, retain: bool, dup: bool)
    requires PublishFault(limits, topic, payload, qos, given, OutgoingProperties(given, false)) == SUCCESS
    requires given != [] && AllGood([given[0]]) && topic != [] && mid != 0
    ensures var p := MessageOf(topic, payload, qos, retain, OutgoingProperties(given, false), mid, dup);
            var read := PublishAt(limits.protocol, PublishCommand(p), PublishBody(limits.protocol, p));
            read.Publish? && read.content.properties == [given[0]]
  {
    hide PublishBody, PublishFault, EstimatedLength, PublishAt, PublishCommand, AllGood, Acceptable, PropertiesFit;
    AdmittedExactly(limits, topic, payload, qos, given, false);
    assert OutgoingProperties(given, false) == [given[0]];
    OnePropertyFits(given[0]);
    AdmittedComesThrough(limits, topic, payload, qos, given, false, mid, retain, dup);
  }

  lemma OnePropertyFits(p: Property)
    requires AllGood([p])
    ensures PropertiesFit([p])
  {
    assert p in [p] && [p][1..] == [] && EncodeProperties([]) == [];
    assert EncodeProperties([p]) == EncodeProperty([p][0]) + EncodeProperties([p][1..]);
    IdentifierByte(p.identifier);
    hide ValidTexts, EncodeVarint;
    match p.value
    case Varint(n) => EncodeVarintLength(n);
    case _ =>
  }

  /** Without properties and limits on QoS only the topic and the lengths count. */
  lemma PlainAdmitted(limits: Limits, topic: seq<byte>, payload: seq<byte>, qos: nat)
    requires qos <= 2 && qos <= limits.maximumQos
    requires topic != [] && Utf8.WellFormed(topic) && Topics.ValidTopic(topic) && |topic| <= 65535 && |payload| <= MQTT_MAX_PAYLOAD
    requires !Oversize(limits.maximumPacketSize, 3 + |topic| + |payload| + if qos > 0 then 1 else 0)
    ensures PublishFault(limits, topic, payload, qos, [], []) == SUCCESS
  {
    assert EncodeProperties([]) == [];
    AdmittedExactly(limits, topic, payload, qos, [], true);
  }

  /** A message that is admitted and then refused for its size: QoS 1 on a topic of
      one character, at a maximum packet size of 6. */
  lemma AdmittedButOversize()
    ensures var limits, p := Limits(V5, 2, 6), Small(V5, 1);
            && PublishFault(limits, [0x61], [], 1, [], []) == SUCCESS
            && PrintResult(6, |PublishBody(V5, p)|) == ERR_OVERSIZE_PACKET
  {
    SmallBody(V5);
    PlainAdmitted(Limits(V5, 2, 6), [0x61], [], 1);
  }

  /** Another one, without any maximum: a payload of the largest size admitted does
      not fit in a packet. */
  lemma AdmittedButTooLong(payload: seq<byte>)
    requires |payload| == MQTT_MAX_PAYLOAD
    ensures PublishFault(Limits(V311, 2, 0), [0x61], payload, 0, [], []) == SUCCESS
    ensures var p := MessageOf([0x61], payload, 0, false, [], 1, false);
            PrintResult(0, |PublishBody(V311, p)|) == ERR_PAYLOAD_SIZE
  {
    SmallBody(V311);
    PlainAdmitted(Limits(V311, 2, 0), [0x61], payload, 0);
    PrintedLengthExact(V311, [0x61], payload, 0, false, [], 1, false);
  }

  /** And one that is refused although it would fit: version 3 has no properties,
      but a byte is counted for their length. */
  lemma RefusedThoughItFits()
    ensures var p := MessageOf([0x61], [], 0, false, [], 1, false);
            && PublishFault(Limits(V311, 2, 4), [0x61], [], 0, [], []) == ERR_OVERSIZE_PACKET
            && PrintResult(4, |PublishBody(V311, p)|) == SUCCESS
  {
    SmallBody(V311);
    PrintedLengthExact(V311, [0x61], [], 0, false, [], 1, false);
  }
}
