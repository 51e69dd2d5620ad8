/**
 * What the packet builders share: MQTT 5 property blocks, and buffers filled to
 * their last byte with one control packet.
 */
module Building {
  import opened Mqtt
  import opened Wire
  import opened Packets
  import opened Framing
  import opened Repetition
  import opened Properties

  // ---------- property blocks ----------

  /** What a property list has to be for a builder to write it. */
  predicate PropertiesFit(ps: seq<Property>) {
    (forall p | p in ps :: Encodable(p)) && |EncodeProperties(ps)| <= MAX_VARINT
  }

  /** Length and properties; version 5 only. */
  function PropertyBlock(protocol: Protocol, ps: seq<Property>): seq<byte> {
    if protocol == V5 then EncodeVarint(|EncodeProperties(ps)|) + EncodeProperties(ps) else []
  }

  lemma PropertyBlockLength(protocol: Protocol, ps: seq<Property>)
    requires PropertiesFit(ps)
    ensures |PropertyBlock(protocol, ps)| ==
            if protocol == V5 then VarintBytes(|EncodeProperties(ps)|) + |EncodeProperties(ps)| else 0
  {
    EncodeVarintLength(|EncodeProperties(ps)|);
  }

  /** Properties that fit are counted right and written whole. */
  lemma WrittenWhole(ps: seq<Property>)
    requires PropertiesFit(ps)
    ensures forall p | p in ps :: Storable(p)
    ensures CountedAll(ps) == |EncodeProperties(ps)| <= MAX_VARINT
    ensures ListResult(ps, true) == ListResult(ps, false) == SUCCESS
    ensures ListOutput(ps, true) == PropertyBlock(V5, ps) && ListOutput(ps, false) == EncodeProperties(ps)
  {
    hide EncodeVarint, EncodeProperties, CountedAll, OutputAll, ResultAll, Encodable, Storable;
    EncodableStorable(ps);
    WriteAllExact(ps);
  }

  /** The length of a list and of the block that it makes. */
  method EncodedLength(ps: seq<Property>) returns (proplen: nat)
    requires PropertiesFit(ps)
    ensures proplen == |EncodeProperties(ps)| <= MAX_VARINT
    ensures |PropertyBlock(V5, ps)| == VarintBytes(proplen) + proplen
  {
    hide CountedAll, EncodeProperties, EncodeVarint, Storable;
    WrittenWhole(ps);
    proplen := GetLengthAll(ps);
    PropertyBlockLength(V5, ps);
  }

  /** property__write_all with its length in front. */
  method WriteWithLength(packet: Packet, ps: seq<Property>)
    requires PropertiesFit(ps) && packet.Room(|PropertyBlock(V5, ps)|)
    modifies packet`pos, packet.payload
    ensures packet.Writable() && packet.Written() == old(packet.Written()) + PropertyBlock(V5, ps)
  {
    hide EncodeProperties, PropertiesFit, PropertyBlock, ListOutput, ListResult, CountedAll, Storable;
    WrittenWhole(ps);
    var rc := WriteAll(packet, ps, true);
  }

  /** The same in two steps: the length first, the properties behind it. */
  method WritePropertyBlock(packet: Packet, protocol: Protocol, ps: seq<Property>)
    requires protocol == V5 ==> PropertiesFit(ps)
    requires packet.Room(|PropertyBlock(protocol, ps)|)
    modifies packet`pos, packet.payload
    ensures packet.Writable() && packet.Written() == old(packet.Written()) + PropertyBlock(protocol, ps)
  {
    hide EncodeVarint, EncodeProperties, PropertiesFit, ListOutput, ListResult, CountedAll, Storable;
    if protocol == V5 {
      ghost var w := packet.Written();
      WrittenWhole(ps);
      var proplen := EncodedLength(ps);
      ConcatAssoc(w, EncodeVarint(proplen), EncodeProperties(ps));
      assert PropertyBlock(V5, ps) == EncodeVarint(proplen) + EncodeProperties(ps);
      hide PropertyBlock;
      var rc := packet.WriteVarint(proplen);
      rc := WriteAll(packet, ps, false);
    }
  }

  /** A property list comes back from its block unchanged and in order, with the
      cursor exactly behind the block, unless the check finds fault with it. */
  lemma BlockRead(command: int, buf: seq<byte>, pos: nat, ps: seq<Property>)
    requires AllGood(ps) && |EncodeProperties(ps)| <= MAX_VARINT
    requires Holds(buf, pos, PropertyBlock(V5, ps))
    ensures PropertiesAt(command, buf, pos) ==
            if FirstFault(command, ps) != SUCCESS then Failed(FirstFault(command, ps))
            else Parsed(ps, pos + |PropertyBlock(V5, ps)|)
  {
    hide Holds, EncodeProperties, PropertyBlock, VarintAt, FirstFault, PropertiesFrom, AllGood, Covers, EncodeAll, EncodeProperty;
    var e := EncodeProperties(ps);
    var at := pos + |PropertyBlock(V5, ps)| - |e|;
    BlockParts(buf, pos, ps);
    CoversProperties(ps);
    ListRead(buf, at, |e|, ps);
  }

  /** The two parts of a block: the length, read first, and the properties. */
  lemma BlockParts(buf: seq<byte>, pos: nat, ps: seq<Property>)
    requires |EncodeProperties(ps)| <= MAX_VARINT && Holds(buf, pos, PropertyBlock(V5, ps))
    ensures var e := EncodeProperties(ps);
            var at := pos + |PropertyBlock(V5, ps)| - |e|;
            pos <= at <= |buf| && VarintAt(buf, pos) == Parsed(|e|, at) && Holds(buf, at, e)
  {
    var e := EncodeProperties(ps);
    var n := EncodeVarint(|e|);
    HoldsSlice(buf, pos, n, e);
    HoldsSize(buf, pos, n);
    hide Holds, EncodeVarint, EncodeProperties, VarintAt;
    VarintExact(buf, pos, |e|, pos + |n|);
  }

  lemma ListRead(buf: seq<byte>, pos: nat, left: nat, ps: seq<Property>)
    requires pos <= |buf| && AllGood(ps) && Covers(EncodeProperty, ps, left) && Holds(buf, pos, EncodeProperties(ps))
    ensures PropertiesFrom(buf, pos, left) == Parsed(ps, pos + |EncodeProperties(ps)|)
  {
    ReaderReadsBack(buf);
    ReadFromExact(Reader(buf), EncodeProperty, Good(), buf, pos, left, ps, pos + |EncodeProperties(ps)|);
    hide ReadsBack, Covers, Holds, EncodeAll, Encodable, ValidTexts, ReadFrom;
  }

  lemma PropertiesRoundTrip(command: int, buf: seq<byte>, pos: nat, ps: seq<Property>)
    requires AllGood(ps) && Acceptable(command, ps) && |EncodeProperties(ps)| <= MAX_VARINT
    requires Holds(buf, pos, PropertyBlock(V5, ps))
    ensures PropertiesAt(command, buf, pos) == Parsed(ps, pos + |PropertyBlock(V5, ps)|)
  {
    hide AllGood, Acceptable, Holds, PropertyBlock, PropertiesAt, FirstFault;
    CheckAllExact(command, ps);
    BlockRead(command, buf, pos, ps);
  }

  lemma CoversProperties(ps: seq<Property>)
    ensures Covers(EncodeProperty, ps, |EncodeProperties(ps)|)
  {
    forall p | p in ps ensures EncodeProperty(p) != [] { NotEmpty(p); }
    CoversItself(EncodeProperty, ps);
  }

  /** The block that a packet of version 5 has and others have not. */
  ghost function BlockAt(protocol: Protocol, command: int, buf: seq<byte>, pos: nat): Parsed<seq<Property>> {
    if protocol == V5 then PropertiesAt(command, buf, pos) else Parsed([], pos)
  }

  lemma BlockRoundTrip(protocol: Protocol, command: int, buf: seq<byte>, pos: nat, ps: seq<Property>)
    requires protocol == V5 ==> PropertiesFit(ps) && AllGood(ps) && Acceptable(command, ps)
    requires Holds(buf, pos, PropertyBlock(protocol, ps))
    ensures BlockAt(protocol, command, buf, pos) ==
            Parsed(if protocol == V5 then ps else [], pos + |PropertyBlock(protocol, ps)|)
  {
    if protocol == V5 { PropertiesRoundTrip(command, buf, pos, ps); }
  }

  /** A declared length, an acceptable property list that covers it, and what is
      behind that. */
  ghost predicate ListLaid(command: int, b: seq<byte>, left: nat, ps: seq<Property>, rest: seq<byte>) {
    && left <= MAX_VARINT && AllGood(ps) && Acceptable(command, ps) && Covers(EncodeProperty, ps, left)
    && b == EncodeVarint(left) + EncodeProperties(ps) + rest
  }

  ghost predicate BlockLaid(command: int, b: seq<byte>, ps: seq<Property>, rest: seq<byte>) {
    exists left: nat :: ListLaid(command, b, left, ps, rest)
  }

  /** property__read_all accepts exactly such blocks. */
  lemma BlockExact(command: int, buf: seq<byte>, pos: nat, ps: seq<Property>, next: nat)
    requires pos <= |buf|
    ensures PropertiesAt(command, buf, pos) == Parsed(ps, next) <==>
            pos <= next <= |buf| && BlockLaid(command, buf[pos..], ps, buf[next..])
  {
    hide PropertiesAt, ListLaid;
    if PropertiesAt(command, buf, pos) == Parsed(ps, next) {
      var left := ListFound(command, buf, pos, ps, next);
    } else if pos <= next <= |buf| && BlockLaid(command, buf[pos..], ps, buf[next..]) {
      var left: nat :| ListLaid(command, buf[pos..], left, ps, buf[next..]);
      ListReads(command, buf, pos, left, ps, next);
    }
  }

  lemma BlockReadsAs(command: int, buf: seq<byte>, pos: nat, ps: seq<Property>)
    requires pos <= |buf|
    ensures PropertiesAt(command, buf, pos).Parsed? && PropertiesAt(command, buf, pos).value == ps <==>
            exists rest :: BlockLaid(command, buf[pos..], ps, rest)
  {
    hide PropertiesAt, BlockLaid;
    if PropertiesAt(command, buf, pos).Parsed? {
      BlockExact(command, buf, pos, PropertiesAt(command, buf, pos).value, PropertiesAt(command, buf, pos).next);
    }
    forall rest | BlockLaid(command, buf[pos..], ps, rest)
      ensures PropertiesAt(command, buf, pos).Parsed? && PropertiesAt(command, buf, pos).value == ps
    {
      BlockEnds(command, buf[pos..], ps, rest);
      var next := |buf| - |rest|;
      assert buf[next..] == buf[pos..][next - pos..];
      BlockExact(command, buf, pos, ps, next);
    }
  }

  lemma BlockSome(command: int, buf: seq<byte>, pos: nat)
    requires pos <= |buf|
    ensures PropertiesAt(command, buf, pos).Parsed? <==> exists ps, rest :: BlockLaid(command, buf[pos..], ps, rest)
  {
    hide PropertiesAt, BlockLaid;
    if PropertiesAt(command, buf, pos).Parsed? { BlockReadsAs(command, buf, pos, PropertiesAt(command, buf, pos).value); }
    forall ps, rest | BlockLaid(command, buf[pos..], ps, rest) ensures PropertiesAt(command, buf, pos).Parsed? {
      BlockReadsAs(command, buf, pos, ps);
    }
  }

  lemma BlockEnds(command: int, b: seq<byte>, ps: seq<Property>, rest: seq<byte>)
    requires BlockLaid(command, b, ps, rest)
    ensures |rest| <= |b| && b[|b| - |rest|..] == rest
  {
  }

  lemma ListFound(command: int, buf: seq<byte>, pos: nat, ps: seq<Property>, next: nat) returns (left: nat)
    requires pos <= |buf| && PropertiesAt(command, buf, pos) == Parsed(ps, next)
    ensures pos <= next <= |buf| && ListLaid(command, buf[pos..], left, ps, buf[next..])
  {
    hide PropertiesAt, EncodeVarint, EncodeProperties, AllGood, Acceptable, Covers, VarintAt;
    PropertiesExact(command, buf, pos, ps, next);
    left := VarintAt(buf, pos).value;
    var p := VarintAt(buf, pos).next;
    VarintExact(buf, pos, left, p);
    assert buf[pos..] == buf[pos..p] + buf[p..next] + buf[next..];
  }

  lemma SliceOfSlice(buf: seq<byte>, pos: nat, i: nat, j: nat)
    requires i <= j && pos + j <= |buf|
    ensures buf[pos..][i..j] == buf[pos + i..pos + j]
  {
  }

  lemma ListReads(command: int, buf: seq<byte>, pos: nat, left: nat, ps: seq<Property>, next: nat)
    requires pos <= next <= |buf| && ListLaid(command, buf[pos..], left, ps, buf[next..])
    ensures PropertiesAt(command, buf, pos) == Parsed(ps, next) && next > pos
  {
    hide PropertiesAt, EncodeVarint, EncodeProperties, AllGood, Acceptable, Covers, VarintAt;
    var n, e := EncodeVarint(left), EncodeProperties(ps);
    var b := buf[pos..];
    assert b == n + e + buf[next..];
    assert b[..|n|] == n && b[|n|..|n| + |e|] == e;
    SliceOfSlice(buf, pos, 0, |n|);
    SliceOfSlice(buf, pos, |n|, |n| + |e|);
    VarintExact(buf, pos, left, pos + |n|);
    PropertiesExact(command, buf, pos, ps, pos + |n| + |e|);
  }

  // ---------- whole packets ----------

  /** A packet that has been filled to its last byte with one frame, as
      packet__queue gets it. */
  ghost predicate Filled(packet: Packet, command: byte, body: seq<byte>)
    reads packet, packet.payload
  {
    && packet.Writable() && packet.pos == packet.packetLength
    && packet.payload[..] == EncodeFrame(Frame(command, body))
    && |body| <= MAX_VARINT
  }

  lemma WholeFrame(packet: Packet, command: byte, body: seq<byte>)
    requires packet.Writable() && packet.pos == packet.packetLength && |body| <= MAX_VARINT
    requires packet.Written() == [command] + EncodeVarint(|body|) + body
    ensures Filled(packet, command, body)
  {
    ConcatAssoc([command], EncodeVarint(|body|), body);
    assert packet.Written() == packet.payload[..];
  }
}
