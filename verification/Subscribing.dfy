/**
 * The SUBSCRIBE packet (section 3.8 of MQTT Version 5.0): send__subscribe, and
 * a reader that follows the standard.
 */
module Subscribing {
  import opened Mqtt
  import opened Wire
  import opened Packets
  import opened Framing
  import opened Repetition
  import opened Properties
  import opened Building

  /** A topic filter with its options byte. */
  datatype Request = Request(filter: seq<byte>, options: byte)

  function EncodeRequest(r: Request): seq<byte> { EncodeBinary(r.filter) + [r.options] }

  function Requests(topics: seq<seq<byte>>, options: byte): seq<Request> {
    if topics == [] then [] else [Request(topics[0], options)] + Requests(topics[1..], options)
  }

  function RequestBytes(topics: seq<seq<byte>>, options: byte): seq<byte> {
    EncodeAll(EncodeRequest, Requests(topics, options))
  }

  function SubscribeBody(protocol: Protocol, mid: uint16, topics: seq<seq<byte>>, options: byte, ps: seq<Property>): seq<byte> {
    EncodeUint16(mid) + PropertyBlock(protocol, ps) + RequestBytes(topics, options)
  }

  predicate AllFit(topics: seq<seq<byte>>) { forall t | t in topics :: Fits(t) }

  /** One more topic at the end, one topic less at the front. */
  lemma {:induction false} RequestBytesSplit(topics: seq<seq<byte>>, options: byte, k: nat)
    requires k < |topics|
    ensures RequestBytes(topics[..k + 1], options) == RequestBytes(topics[..k], options) + EncodeRequest(Request(topics[k], options))
    ensures RequestBytes(topics[k..], options) == EncodeRequest(Request(topics[k], options)) + RequestBytes(topics[k + 1..], options)
  {
    assert topics[k..][1..] == topics[k + 1..];
    RequestBytesCons(topics[k..], options);
    if k == 0 {
      assert topics[..1][1..] == [] && topics[..0] == [];
      RequestBytesCons(topics[..1], options);
    } else {
      assert topics[..k + 1][1..] == topics[1..][..k] && topics[..k][1..] == topics[1..][..k - 1];
      RequestBytesCons(topics[..k + 1], options);
      RequestBytesCons(topics[..k], options);
      RequestBytesSplit(topics[1..], options, k - 1);
      ConcatAssoc(EncodeRequest(Request(topics[0], options)), RequestBytes(topics[1..][..k - 1], options),
                  EncodeRequest(Request(topics[k], options)));
    }
  }

  lemma RequestBytesCons(topics: seq<seq<byte>>, options: byte)
    ensures topics == [] ==> RequestBytes(topics, options) == []
    ensures topics != [] ==>
              RequestBytes(topics, options) == EncodeRequest(Request(topics[0], options)) + RequestBytes(topics[1..], options)
  {
  }

  lemma RequestSize(t: seq<byte>, options: byte)
    requires Fits(t)
    ensures |EncodeRequest(Request(t, options))| == 2 + |t| + 1
  {
  }

  /** The length loop of send__subscribe. */
  method RequestsLength(topics: seq<seq<byte>>, ghost options: byte) returns (len: nat)
    requires AllFit(topics)
    ensures len == |RequestBytes(topics, options)|
  {
    hide RequestBytes, EncodeRequest;
    len := 0;
    RequestBytesCons(topics[..0], options);
    for i := 0 to |topics|
      invariant len == |RequestBytes(topics[..i], options)|
    {
      assert topics[i] in topics;
      RequestBytesSplit(topics, options, i);
      RequestSize(topics[i], options);
      len := len + 2 + |topics[i]| + 1;
    }
    assert topics[..|topics|] == topics;
  }

  /** The writing loop of send__subscribe. */
  method FillRequests(packet: Packet, topics: seq<seq<byte>>, options: byte)
    requires AllFit(topics) && packet.Room(|RequestBytes(topics, options)|)
    modifies packet`pos, packet.payload
    ensures packet.Writable() && packet.Written() == old(packet.Written()) + RequestBytes(topics, options)
  {
    hide RequestBytes, EncodeRequest, EncodeBinary;
    ghost var start := packet.Written();
    RequestBytesCons(topics[..0], options);
    assert topics[0..] == topics;
    for i := 0 to |topics|
      invariant packet.Room(|RequestBytes(topics[i..], options)|)
      invariant packet.Written() == start + RequestBytes(topics[..i], options)
    {
      assert topics[i] in topics;
      RequestBytesSplit(topics, options, i);
      ConcatAssoc(start, RequestBytes(topics[..i], options), EncodeRequest(Request(topics[i], options)));
      FillRequest(packet, topics[i], options);
    }
    assert topics[..|topics|] == topics;
  }

  method FillRequest(packet: Packet, topic: seq<byte>, options: byte)
    requires Fits(topic) && packet.Room(|EncodeRequest(Request(topic, options))|)
    modifies packet`pos, packet.payload
    ensures packet.Writable() && packet.Written() == old(packet.Written()) + EncodeRequest(Request(topic, options))
  {
    RequestSize(topic, options);
    hide EncodeBinary;
    packet.WriteString(topic);
    packet.WriteByte(options);
  }

  /** send__subscribe, up to the point where the packet is queued. */
  method SendSubscribe(protocol: Protocol, mid: uint16, topics: seq<seq<byte>>, options: byte, ps: seq<Property>)
    returns (rc: int, packet: Packet)
    requires AllFit(topics) && (protocol == V5 ==> PropertiesFit(ps))
    requires |SubscribeBody(protocol, mid, topics, options, ps)| <= 0xFFFF_FFFF
    ensures fresh(packet)
    ensures rc == (if |SubscribeBody(protocol, mid, topics, options, ps)| > MAX_VARINT then ERR_PAYLOAD_SIZE else SUCCESS)
    ensures rc == SUCCESS ==>
              && fresh(packet.payload)
              && Filled(packet, 0x82, SubscribeBody(protocol, mid, topics, options, ps))
  {
    ghost var body := SubscribeBody(protocol, mid, topics, options, ps);
    ghost var m, b, t := EncodeUint16(mid), PropertyBlock(protocol, ps), RequestBytes(topics, options);
    assert protocol != V5 ==> b == [];
    hide RequestBytes, PropertyBlock, PropertiesFit, AllFit, EncodeVarint, EncodeProperties;
    var packetlen := 2;
    if protocol == V5 {
      var proplen := EncodedLength(ps);
      packetlen := packetlen + proplen + VarintBytes(proplen);
    }
    var n := RequestsLength(topics, options);
    packetlen := packetlen + n;
    assert packetlen == |body|;
    packet := new Packet(CMD_SUBSCRIBE + 2, packetlen);
    rc := packet.Alloc();
    if rc != SUCCESS { return; }
    ghost var w := packet.Written();
    FillSubscribe(packet, protocol, mid, topics, options, ps);
    WholeFrame(packet, CMD_SUBSCRIBE + 2, body);
  }

  method FillSubscribe(packet: Packet, protocol: Protocol, mid: uint16, topics: seq<seq<byte>>, options: byte, ps: seq<Property>)
    requires AllFit(topics) && (protocol == V5 ==> PropertiesFit(ps))
    requires packet.Room(|SubscribeBody(protocol, mid, topics, options, ps)|)
    modifies packet`pos, packet.payload
    ensures packet.Writable()
    ensures packet.Written() == old(packet.Written()) + SubscribeBody(protocol, mid, topics, options, ps)
  {
    ghost var w := packet.Written();
    ghost var m, b, t := EncodeUint16(mid), PropertyBlock(protocol, ps), RequestBytes(topics, options);
    assert protocol != V5 ==> b == [];
    hide RequestBytes, PropertyBlock, PropertiesFit, AllFit, EncodeVarint, EncodeProperties, EncodeUint16;
    ConcatAssoc(w, m, b);
    ConcatAssoc(w, m + b, t);
    packet.WriteUint16(mid);
    if protocol == V5 { WriteWithLength(packet, ps); }
    assert packet.Written() == w + m + b;
    FillRequests(packet, topics, options);
  }

  // ---------- reading it as the standard says ----------

  ghost function RequestAt(buf: seq<byte>, pos: nat): Parsed<Request> {
    match StringAt(buf, pos)
    case Failed(rc) => Failed(rc)
    case Parsed(filter, p) =>
      match ByteAt(buf, p)
      case Failed(rc) => Failed(rc)
      case Parsed(options, next) => Parsed(Request(filter, options), next)
  }

  ghost function RequestReader(buf: seq<byte>): nat -> Parsed<Request> { (pos: nat) => RequestAt(buf, pos) }

  ghost function GoodRequest(): Request -> bool { (r: Request) => Fits(r.filter) && ValidText(r.filter) }

  datatype Subscribe = Subscribe(mid: uint16, properties: seq<Property>, requests: seq<Request>)

  /** A whole SUBSCRIBE packet body: requests up to its end. */
  ghost function SubscribeAt(protocol: Protocol, buf: seq<byte>): Parsed<Subscribe> {
    match Uint16At(buf, 0)
    case Failed(rc) => Failed(rc)
    case Parsed(mid, p) =>
      match BlockAt(protocol, CMD_SUBSCRIBE, buf, p)
      case Failed(rc) => Failed(rc)
      case Parsed(ps, q) =>
        match ReadFrom(RequestReader(buf), |buf|, q, |buf| - q)
        case Failed(rc) => Failed(rc)
        case Parsed(requests, next) => Parsed(Subscribe(mid, ps, requests), next)
  }

  lemma RequestExact(buf: seq<byte>, pos: nat, r: Request, next: nat)
    ensures RequestAt(buf, pos) == Parsed(r, next) <==>
            Fits(r.filter) && ValidText(r.filter) && Holds(buf, pos, EncodeRequest(r)) && next == pos + |EncodeRequest(r)|
    ensures EncodeRequest(r) != []
  {
    var e := EncodeBinary(r.filter);
    var p := pos + 2 + |r.filter|;
    StringExact(buf, pos, r.filter, p);
    if Fits(r.filter) {
      RequestSize(r.filter, r.options);
      if Holds(buf, pos, e + [r.options]) { HoldsSlice(buf, pos, e, [r.options]); }
      if Holds(buf, pos, e) && Holds(buf, p, [r.options]) { HoldsJoin(buf, pos, e, [r.options]); }
      assert Holds(buf, p, [r.options]) <==> p < |buf| && buf[p] == r.options by {
        HoldsCons(buf, p, r.options, []);
        HoldsNothing(buf, p + 1);
        assert [r.options] + [] == [r.options];
      }
    }
    match StringAt(buf, pos)
    case Failed(_) =>
    case Parsed(f, n) => StringExact(buf, pos, f, n);
  }

  lemma RequestReaderReadsBack(buf: seq<byte>)
    ensures ReadsBack(RequestReader(buf), EncodeRequest, GoodRequest(), buf)
  {
    hide RequestAt, EncodeRequest;
    var read, encode, good := RequestReader(buf), EncodeRequest, GoodRequest();
    forall pos: nat, r, next: nat
      ensures read(pos) == Parsed(r, next) <==> good(r) && Holds(buf, pos, encode(r)) && next == pos + |encode(r)|
    {
      RequestReaderExact(read, encode, good, buf, pos, r, next);
    }
    forall r ensures encode(r) != [] { RequestReaderExact(read, encode, good, buf, 0, r, 0); }
  }

  lemma RequestReaderExact(read: nat -> Parsed<Request>, encode: Request -> seq<byte>, good: Request -> bool,
                           buf: seq<byte>, pos: nat, r: Request, next: nat)
    requires read == RequestReader(buf) && encode == EncodeRequest && good == GoodRequest()
    ensures read(pos) == Parsed(r, next) <==> good(r) && Holds(buf, pos, encode(r)) && next == pos + |encode(r)|
    ensures encode(r) != []
  {
    RequestExact(buf, pos, r, next);
  }

  lemma {:induction false} RequestsGood(topics: seq<seq<byte>>, options: byte)
    requires AllFit(topics) && forall t | t in topics :: ValidText(t)
    ensures forall r | r in Requests(topics, options) :: GoodRequest()(r)
  {
    if topics != [] {
      assert topics[0] in topics && forall t | t in topics[1..] :: t in topics;
      RequestsGood(topics[1..], options);
    }
  }

  lemma RequestsRoundTrip(buf: seq<byte>, pos: nat, topics: seq<seq<byte>>, options: byte)
    requires AllFit(topics) && forall t | t in topics :: ValidText(t)
    requires Holds(buf, pos, RequestBytes(topics, options)) && |buf| == pos + |RequestBytes(topics, options)|
    ensures ReadFrom(RequestReader(buf), |buf|, pos, |buf| - pos) == Parsed(Requests(topics, options), |buf|)
  {
    var rs := Requests(topics, options);
    RequestReaderReadsBack(buf);
    RequestsGood(topics, options);
    forall r | r in rs ensures EncodeRequest(r) != [] { RequestExact(buf, 0, r, 0); }
    CoversItself(EncodeRequest, rs);
    ReadFromExact(RequestReader(buf), EncodeRequest, GoodRequest(), buf, pos, |buf| - pos, rs, |buf|);
    hide RequestReader, ReadsBack, ReadFrom, EncodeRequest, Covers;
  }

  /** A reader that follows the standard finds the identifier, the properties and
      every topic filter, in order, each with the same options. */
  lemma SubscribeRoundTrip(protocol: Protocol, mid: uint16, topics: seq<seq<byte>>, options: byte, ps: seq<Property>)
    requires AllFit(topics) && forall t | t in topics :: ValidText(t)
    requires protocol == V5 ==> PropertiesFit(ps) && AllGood(ps) && Acceptable(CMD_SUBSCRIBE, ps)
    ensures var body := SubscribeBody(protocol, mid, topics, options, ps);
            SubscribeAt(protocol, body) ==
            Parsed(Subscribe(mid, if protocol == V5 then ps else [], Requests(topics, options)), |body|)
  {
    hide PropertiesFit, AllGood, Acceptable, EncodeUint16, PropertyBlock, RequestBytes, Uint16At, Holds, BlockAt;
    var body := SubscribeBody(protocol, mid, topics, options, ps);
    var m, b, t := EncodeUint16(mid), PropertyBlock(protocol, ps), RequestBytes(topics, options);
    HoldsWhole(body);
    HoldsThree(body, 0, m, b, t);
    Uint16Exact(body, 0, mid, 2);
    BlockRoundTrip(protocol, CMD_SUBSCRIBE, body, 2, ps);
    RequestsRoundTrip(body, 2 + |b|, topics, options);
  }
}
