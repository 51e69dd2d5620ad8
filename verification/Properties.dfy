/**
 * MQTT 5 properties (property_mosq.c).  A property list, linked in the source
 * through `next`, is a sequence here.
 */
module Properties {
  import opened Mqtt
  import opened Wire
  import opened Packets
  import opened Repetition
  import Utf8

  const PAYLOAD_FORMAT_INDICATOR := 1
  const MESSAGE_EXPIRY_INTERVAL := 2
  const CONTENT_TYPE := 3
  const RESPONSE_TOPIC := 8
  const CORRELATION_DATA := 9
  const SUBSCRIPTION_IDENTIFIER := 11
  const SESSION_EXPIRY_INTERVAL := 17
  const ASSIGNED_CLIENT_IDENTIFIER := 18
  const SERVER_KEEP_ALIVE := 19
  const AUTHENTICATION_METHOD := 21
  const AUTHENTICATION_DATA := 22
  const REQUEST_PROBLEM_INFORMATION := 23
  const WILL_DELAY_INTERVAL := 24
  const REQUEST_RESPONSE_INFORMATION := 25
  const RESPONSE_INFORMATION := 26
  const SERVER_REFERENCE := 28
  const REASON_STRING := 31
  const RECEIVE_MAXIMUM := 33
  const TOPIC_ALIAS_MAXIMUM := 34
  const TOPIC_ALIAS := 35
  const MAXIMUM_QOS := 36
  const RETAIN_AVAILABLE := 37
  const USER_PROPERTY := 38
  const MAXIMUM_PACKET_SIZE := 39
  const WILDCARD_SUB_AVAILABLE := 40
  const SUBSCRIPTION_ID_AVAILABLE := 41
  const SHARED_SUB_AVAILABLE := 42

  datatype Kind = KByte | KInt16 | KInt32 | KVarint | KBinary | KString | KStringPair | KUnknown

  /** The case lists that read, write, get_length and free share. */
  function KindOf(id: int): Kind {
    if id in {PAYLOAD_FORMAT_INDICATOR, REQUEST_PROBLEM_INFORMATION, REQUEST_RESPONSE_INFORMATION, MAXIMUM_QOS,
              RETAIN_AVAILABLE, WILDCARD_SUB_AVAILABLE, SUBSCRIPTION_ID_AVAILABLE, SHARED_SUB_AVAILABLE} then KByte
    else if id in {SERVER_KEEP_ALIVE, RECEIVE_MAXIMUM, TOPIC_ALIAS_MAXIMUM, TOPIC_ALIAS} then KInt16
    else if id in {MESSAGE_EXPIRY_INTERVAL, SESSION_EXPIRY_INTERVAL, WILL_DELAY_INTERVAL, MAXIMUM_PACKET_SIZE} then KInt32
    else if id == SUBSCRIPTION_IDENTIFIER then KVarint
    else if id in {AUTHENTICATION_DATA, CORRELATION_DATA} then KBinary
    else if id in {CONTENT_TYPE, RESPONSE_TOPIC, ASSIGNED_CLIENT_IDENTIFIER, AUTHENTICATION_METHOD,
                   RESPONSE_INFORMATION, SERVER_REFERENCE, REASON_STRING} then KString
    else if id == USER_PROPERTY then KStringPair
    else KUnknown
  }

  datatype Value =
    | Byte(i8: byte)
    | Int16(i16: uint16)
    | Int32(i32: uint32)
    | Varint(varint: nat)
    | Binary(bin: seq<byte>)
    | Text(s: seq<byte>)
    | TextPair(name: seq<byte>, s: seq<byte>)

  datatype Property = Property(identifier: nat, value: Value)

  /** The union member in use is the one the identifier calls for. */
  predicate Typed(p: Property) {
    match KindOf(p.identifier)
    case KByte => p.value.Byte?
    case KInt16 => p.value.Int16?
    case KInt32 => p.value.Int32?
    case KVarint => p.value.Varint?
    case KBinary => p.value.Binary?
    case KString => p.value.Text?
    case KStringPair => p.value.TextPair?
    case KUnknown => false
  }

  /** Every length fits its field and every integer its encoding. */
  predicate Encodable(p: Property) { Typed(p) && ValueFits(p.value) }

  predicate ValueFits(v: Value) {
    match v
    case Varint(n) => n <= MAX_VARINT
    case Binary(b) => Fits(b)
    case Text(s) => Fits(s)
    case TextPair(n, s) => Fits(n) && Fits(s)
    case _ => true
  }

  ghost predicate ValidText(s: seq<byte>) { s == [] || Utf8.WellFormed(s) }

  ghost predicate ValidTexts(p: Property) {
    match p.value
    case Text(s) => ValidText(s)
    case TextPair(n, s) => ValidText(n) && ValidText(s)
    case _ => true
  }

  ghost predicate AllGood(ps: seq<Property>) { forall p | p in ps :: Encodable(p) && ValidTexts(p) }

  // ---------- layout and length ----------

  function EncodeValue(v: Value): seq<byte> {
    match v
    case Byte(b) => [b]
    case Int16(w) => EncodeUint16(w)
    case Int32(w) => EncodeUint32(w)
    case Varint(n) => EncodeVarint(n)
    case Binary(b) => EncodeBinary(b)
    case Text(s) => EncodeBinary(s)
    case TextPair(n, s) => EncodeBinary(n) + EncodeBinary(s)
  }

  function EncodeProperty(p: Property): seq<byte> { EncodeVarint(p.identifier) + EncodeValue(p.value) }

  function EncodeProperties(ps: seq<Property>): seq<byte> { EncodeAll(EncodeProperty, ps) }

  lemma IdentifierByte(id: nat)
    requires KindOf(id) != KUnknown
    ensures EncodeVarint(id) == [id as byte]
  {
  }

  /** What a property in memory can be: the union member in use is the one that the
      identifier calls for, if it is known at all, and lengths and integers are
      those of the fields that hold them. */
  predicate Storable(p: Property) {
    && p.identifier <= 0x7FFF_FFFF && (KindOf(p.identifier) == KUnknown || Typed(p))
    && (if p.value.Varint? then p.value.varint <= 0x7FFF_FFFF else ValueFits(p.value))
  }

  /** How many bytes a property counts for: none if it has no encoding. */
  function Counted(p: Property): nat { if Encodable(p) then |EncodeProperty(p)| else 0 }

  /** property__get_length. */
  method GetLength(property: Property) returns (len: nat)
    requires Storable(property)
    ensures len == Counted(property)
  {
    if KindOf(property.identifier) != KUnknown { IdentifierByte(property.identifier); }
    match KindOf(property.identifier) {
      case KByte => len := 2;
      case KInt16 => len := 3;
      case KInt32 => len := 5;
      case KVarint =>
        var n := property.value.varint;
        if n < 128 { len := 2; }
        else if n < 16384 { len := 3; }
        else if n < 2097152 { len := 4; }
        else if n < 268435456 { len := 5; }
        else { len := 0; }
        if n <= MAX_VARINT { EncodeVarintLength(n); }
      case KBinary => len := 3 + |property.value.bin|;
      case KString => len := 3 + |property.value.s|;
      case KStringPair => len := 5 + |property.value.s| + |property.value.name|;
      case KUnknown => len := 0;
    }
  }

  // ---------- the standard's table ----------

  /** The data types of table 2-4 in section 2.2.2.2 of MQTT Version 5.0. */
  datatype DataType = OneByte | TwoBytes | FourBytes | VariableBytes | BinaryData | Utf8String | Utf8Pair

  function DataTypeOf(id: nat): Option<DataType> {
    match id
    case 1 | 23 | 25 | 36 | 37 | 40 | 41 | 42 => Some(OneByte)
    case 19 | 33 | 34 | 35 => Some(TwoBytes)
    case 2 | 17 | 24 | 39 => Some(FourBytes)
    case 11 => Some(VariableBytes)
    case 9 | 22 => Some(BinaryData)
    case 3 | 8 | 18 | 21 | 26 | 28 | 31 => Some(Utf8String)
    case 38 => Some(Utf8Pair)
    case _ => None
  }

  /** Length and contents (sections 1.5.4 and 1.5.6). */
  predicate Prefixed(b: seq<byte>, s: seq<byte>) { |b| == 2 + |s| && Number(b[..2]) == |s| && b[2..] == s }

  /** How a value of each type is laid out (section 1.5). */
  ghost predicate LaidOut(t: DataType, v: Value, b: seq<byte>) {
    match t
    case OneByte => v.Byte? && b == [v.i8]
    case TwoBytes => v.Int16? && |b| == 2 && Number(b) == v.i16
    case FourBytes => v.Int32? && |b| == 4 && Number(b) == v.i32
    case VariableBytes => v.Varint? && Grouped(b, v.varint)
    case BinaryData => v.Binary? && Prefixed(b, v.bin)
    case Utf8String => v.Text? && Prefixed(b, v.s)
    case Utf8Pair => v.TextPair? && exists k | 0 <= k <= |b| :: Prefixed(b[..k], v.name) && Prefixed(b[k..], v.s)
  }

  lemma BinaryPrefixed(s: seq<byte>)
    requires Fits(s)
    ensures Prefixed(EncodeBinary(s), s)
  {
    BigEndian(|s|, 0);
    assert EncodeBinary(s)[2..] == s && EncodeBinary(s)[..2] == EncodeUint16(|s|);
  }

  predicate HasType(t: DataType, v: Value) {
    match t
    case OneByte => v.Byte?
    case TwoBytes => v.Int16?
    case FourBytes => v.Int32?
    case VariableBytes => v.Varint?
    case BinaryData => v.Binary?
    case Utf8String => v.Text?
    case Utf8Pair => v.TextPair?
  }

  lemma TypedAsTable(p: Property)
    requires Typed(p)
    ensures p.identifier < 128 && DataTypeOf(p.identifier).Some? && HasType(DataTypeOf(p.identifier).value, p.value)
  {
  }

  lemma ValueLaidOut(t: DataType, v: Value)
    requires HasType(t, v) && ValueFits(v)
    ensures LaidOut(t, v, EncodeValue(v))
  {
    hide EncodeVarint, EncodeBinary, EncodeUint16, EncodeUint32, Number, Groups, Grouped, Prefixed;
    match v
    case Int16(w) => BigEndian(w, 0);
    case Int32(d) => BigEndian(0, d);
    case Varint(n) => VarintGroups(n);
    case Binary(x) => BinaryPrefixed(x);
    case Text(x) => BinaryPrefixed(x);
    case TextPair(n, x) =>
      BinaryPrefixed(n);
      BinaryPrefixed(x);
      var k := |EncodeBinary(n)|;
      assert EncodeValue(v)[..k] == EncodeBinary(n) && EncodeValue(v)[k..] == EncodeBinary(x);
    case _ =>
  }

  /** A property that has an encoding has a type in the table, and its encoding is
      the identifier and its value as this type is laid out. */
  lemma TableLayout(p: Property)
    requires Encodable(p)
    ensures DataTypeOf(p.identifier).Some? && p.identifier < 128
    ensures var b := EncodeProperty(p);
            b != [] && b[0] == p.identifier && LaidOut(DataTypeOf(p.identifier).value, p.value, b[1..])
  {
    hide EncodeVarint, EncodeValue, LaidOut, HasType, ValueFits;
    IdentifierByte(p.identifier);
    TypedAsTable(p);
    ValueLaidOut(DataTypeOf(p.identifier).value, p.value);
    assert EncodeProperty(p)[1..] == EncodeValue(p.value);
  }

  /** Identifiers are known exactly if they are in the table; others are refused by
      reader and writer. */
  lemma TableComplete(id: nat, buf: seq<byte>, pos: nat, p: Property)
    ensures KindOf(id) != KUnknown <==> DataTypeOf(id).Some?
    ensures DataTypeOf(id).None? && VarintAt(buf, pos).Parsed? && VarintAt(buf, pos).value == id ==>
              PropertyAt(buf, pos) == Failed(ERR_MALFORMED_PACKET)
    ensures DataTypeOf(p.identifier).None? ==> WriteResult(p) != SUCCESS && !Encodable(p)
  {
    hide VarintAt;
  }

  // ---------- reading one property ----------

  ghost function ValueAt(kind: Kind, buf: seq<byte>, pos: nat): Parsed<Value> {
    match kind
    case KByte =>
      (match ByteAt(buf, pos)
       case Failed(rc) => Failed(rc)
       case Parsed(b, n) => Parsed(Byte(b), n))
    case KInt16 =>
      (match Uint16At(buf, pos)
       case Failed(rc) => Failed(rc)
       case Parsed(w, n) => Parsed(Int16(w), n))
    case KInt32 =>
      (match Uint32At(buf, pos)
       case Failed(rc) => Failed(rc)
       case Parsed(w, n) => Parsed(Int32(w), n))
    case KVarint =>
      (match VarintAt(buf, pos)
       case Failed(rc) => Failed(rc)
       case Parsed(v, n) => Parsed(Varint(v), n))
    case KBinary =>
      (match BinaryAt(buf, pos)
       case Failed(rc) => Failed(rc)
       case Parsed(b, n) => Parsed(Binary(b), n))
    case KString =>
      (match StringAt(buf, pos)
       case Failed(rc) => Failed(rc)
       case Parsed(s, n) => Parsed(Text(s), n))
    case KStringPair =>
      (match StringAt(buf, pos)
       case Failed(rc) => Failed(rc)
       case Parsed(name, n) =>
         match StringAt(buf, n)
         case Failed(rc) => Failed(rc)
         case Parsed(s, n') => Parsed(TextPair(name, s), n'))
    case KUnknown => Failed(ERR_MALFORMED_PACKET)
  }

  /** property__read, as a function of the buffer. */
  ghost function PropertyAt(buf: seq<byte>, pos: nat): Parsed<Property> {
    match VarintAt(buf, pos)
    case Failed(rc) => Failed(rc)
    case Parsed(id, p) =>
      match ValueAt(KindOf(id), buf, p)
      case Failed(rc) => Failed(rc)
      case Parsed(v, next) => Parsed(Property(id, v), next)
  }

  lemma StringExact(buf: seq<byte>, pos: nat, s: seq<byte>, next: nat)
    ensures StringAt(buf, pos) == Parsed(s, next) <==>
            Fits(s) && ValidText(s) && Holds(buf, pos, EncodeBinary(s)) && next == pos + 2 + |s|
  {
    BinaryExact(buf, pos, s, next);
  }

  lemma ValueExact(kind: Kind, buf: seq<byte>, pos: nat, id: nat, v: Value, next: nat)
    requires kind == KindOf(id)
    ensures var p := Property(id, v);
            ValueAt(kind, buf, pos) == Parsed(v, next) <==>
            && Encodable(p) && ValidTexts(p)
            && Holds(buf, pos, EncodeValue(v))
            && next == pos + |EncodeValue(v)|
  {
    match v
    case Byte(b) => if pos + 1 <= |buf| { assert buf[pos..pos + 1] == [buf[pos]]; }
    case Int16(w) => Uint16Exact(buf, pos, w, next);
    case Int32(w) => Uint32Exact(buf, pos, w, next);
    case Varint(n) => VarintExact(buf, pos, n, next);
    case Binary(b) => BinaryExact(buf, pos, b, next);
    case Text(s) => StringExact(buf, pos, s, next);
    case TextPair(n, s) => PairExact(buf, pos, n, s, next);
  }

  lemma PairExact(buf: seq<byte>, pos: nat, n: seq<byte>, s: seq<byte>, next: nat)
    ensures ValueAt(KStringPair, buf, pos) == Parsed(TextPair(n, s), next) <==>
            && Fits(n) && Fits(s) && ValidText(n) && ValidText(s)
            && Holds(buf, pos, EncodeBinary(n) + EncodeBinary(s))
            && next == pos + |EncodeBinary(n)| + |EncodeBinary(s)|
  {
    var mid := pos + 2 + |n|;
    StringExact(buf, pos, n, mid);
    StringExact(buf, mid, s, next);
    var e, d := EncodeBinary(n), EncodeBinary(s);
    assert Fits(n) ==> |e| == 2 + |n|;
    assert Fits(s) ==> |d| == 2 + |s|;
    hide EncodeBinary, Holds, StringAt, ValidText;
    if Holds(buf, pos, e + d) { HoldsSlice(buf, pos, e, d); }
    if Fits(n) && Holds(buf, pos, e) && Holds(buf, mid, d) { HoldsJoin(buf, pos, e, d); }
    match StringAt(buf, pos)
    case Failed(_) =>
    case Parsed(n', m') => StringExact(buf, pos, n', m');
  }

  lemma ValueSize(buf: seq<byte>, pos: nat, p: Property)
    ensures ValueAt(KUnknown, buf, pos).Failed?
    ensures Encodable(p) ==> EncodeValue(p.value) != []
  {
    hide EncodeVarint;
  }

  /** A well-formed property whose encoding stands at a position. */
  ghost predicate Stands(buf: seq<byte>, pos: nat, p: Property) {
    Encodable(p) && ValidTexts(p) && Holds(buf, pos, EncodeProperty(p))
  }

  /** property__read succeeds with `p` exactly when the encoding of a well-formed
      `p` stands at the cursor; the cursor then moves behind it. */
  lemma PropertyExact(buf: seq<byte>, pos: nat, p: Property, next: nat)
    ensures PropertyAt(buf, pos) == Parsed(p, next) <==> Stands(buf, pos, p) && next == pos + |EncodeProperty(p)|
    ensures Stands(buf, pos, p) ==> |EncodeProperty(p)| >= 2 && pos + |EncodeProperty(p)| <= |buf|
  {
    hide ValueAt, EncodeValue, EncodeVarint, VarintAt, Holds, ValidTexts, ValueFits;
    ValueSize(buf, pos + 1, p);
    VarintExact(buf, pos, p.identifier, pos + 1);
    ValueExact(KindOf(p.identifier), buf, pos + 1, p.identifier, p.value, next);
    if Encodable(p) {
      IdentifierByte(p.identifier);
      var e, d := EncodeVarint(p.identifier), EncodeValue(p.value);
      if Holds(buf, pos, e + d) { HoldsSlice(buf, pos, e, d); HoldsSize(buf, pos, e + d); }
      if Holds(buf, pos, e) && Holds(buf, pos + 1, d) { HoldsJoin(buf, pos, e, d); }
    }
    match VarintAt(buf, pos)
    case Failed(_) =>
    case Parsed(id, n) =>
      VarintExact(buf, pos, id, n);
      ValueSize(buf, n, p);
      if KindOf(id) != KUnknown { IdentifierByte(id); }
  }

  // ---------- reading a property block ----------

  ghost function Reader(buf: seq<byte>): nat -> Parsed<Property> { (pos: nat) => PropertyAt(buf, pos) }

  ghost function Good(): Property -> bool { p => Encodable(p) && ValidTexts(p) }

  lemma NotEmpty(p: Property)
    ensures EncodeProperty(p) != []
  {
  }

  lemma ReaderExact(read: nat -> Parsed<Property>, encode: Property -> seq<byte>, good: Property -> bool,
                    buf: seq<byte>, pos: nat, p: Property, next: nat)
    requires read == Reader(buf) && encode == EncodeProperty && good == Good()
    ensures read(pos) == Parsed(p, next) <==> good(p) && Holds(buf, pos, encode(p)) && next == pos + |encode(p)|
    ensures encode(p) != []
  {
    PropertyExact(buf, pos, p, next);
    NotEmpty(p);
  }

  lemma ReaderReadsBack(buf: seq<byte>)
    ensures ReadsBack(Reader(buf), EncodeProperty, Good(), buf)
  {
    hide PropertyAt, EncodeProperty, Encodable, ValidTexts;
    var read, encode, good := Reader(buf), EncodeProperty, Good();
    forall pos: nat, p, next: nat
      ensures read(pos) == Parsed(p, next) <==> good(p) && Holds(buf, pos, encode(p)) && next == pos + |encode(p)|
    {
      ReaderExact(read, encode, good, buf, pos, p, next);
    }
    forall p ensures encode(p) != [] { ReaderExact(read, encode, good, buf, 0, p, 0); }
  }

  /** The loop of property__read_all. */
  ghost function PropertiesFrom(buf: seq<byte>, pos: nat, left: int): Parsed<seq<Property>> {
    ReadFrom(Reader(buf), |buf|, pos, left)
  }

  /** property__read_all, as a function of the buffer. */
  ghost function PropertiesAt(command: int, buf: seq<byte>, pos: nat): Parsed<seq<Property>> {
    match VarintAt(buf, pos)
    case Failed(rc) => Failed(rc)
    case Parsed(left, p) =>
      match PropertiesFrom(buf, p, left)
      case Failed(rc) => Failed(rc)
      case Parsed(ps, next) =>
        if FirstFault(command, ps) != SUCCESS then Failed(FirstFault(command, ps)) else Parsed(ps, next)
  }

  // ---------- list checks ----------

  /** mosquitto_property_check_command. */
  function CheckCommand(command: int, id: int): int {
    if id in {PAYLOAD_FORMAT_INDICATOR, MESSAGE_EXPIRY_INTERVAL, CONTENT_TYPE, RESPONSE_TOPIC, CORRELATION_DATA} then
      if command != CMD_PUBLISH && command != CMD_WILL then ERR_PROTOCOL else SUCCESS
    else if id == SUBSCRIPTION_IDENTIFIER then
      if command != CMD_PUBLISH && command != CMD_SUBSCRIBE then ERR_PROTOCOL else SUCCESS
    else if id == SESSION_EXPIRY_INTERVAL then
      if command != CMD_CONNECT && command != CMD_CONNACK && command != CMD_DISCONNECT then ERR_PROTOCOL else SUCCESS
    else if id in {AUTHENTICATION_METHOD, AUTHENTICATION_DATA} then
      if command != CMD_CONNECT && command != CMD_CONNACK && command != CMD_AUTH then ERR_PROTOCOL else SUCCESS
    else if id in {ASSIGNED_CLIENT_IDENTIFIER, SERVER_KEEP_ALIVE, RESPONSE_INFORMATION, MAXIMUM_QOS, RETAIN_AVAILABLE,
                   WILDCARD_SUB_AVAILABLE, SUBSCRIPTION_ID_AVAILABLE, SHARED_SUB_AVAILABLE} then
      if command != CMD_CONNACK then ERR_PROTOCOL else SUCCESS
    else if id == WILL_DELAY_INTERVAL then
      if command != CMD_WILL then ERR_PROTOCOL else SUCCESS
    else if id in {REQUEST_PROBLEM_INFORMATION, REQUEST_RESPONSE_INFORMATION} then
      if command != CMD_CONNECT then ERR_PROTOCOL else SUCCESS
    else if id == SERVER_REFERENCE then
      if command != CMD_CONNACK && command != CMD_DISCONNECT then ERR_PROTOCOL else SUCCESS
    else if id == REASON_STRING then
      if command in {CMD_CONNECT as int, CMD_PUBLISH, CMD_SUBSCRIBE, CMD_UNSUBSCRIBE} then ERR_PROTOCOL else SUCCESS
    else if id in {RECEIVE_MAXIMUM, TOPIC_ALIAS_MAXIMUM, MAXIMUM_PACKET_SIZE} then
      if command != CMD_CONNECT && command != CMD_CONNACK then ERR_PROTOCOL else SUCCESS
    else if id == TOPIC_ALIAS then
      if command != CMD_PUBLISH then ERR_PROTOCOL else SUCCESS
    else if id == USER_PROPERTY then SUCCESS
    else ERR_PROTOCOL
  }

  // What a message carries, in a PUBLISH or as a will.
  const APPLICATION := {1, 2, 3, 8, 9}

  /** The properties of each packet type (by its number) and of a will, after table
      2-4 in section 2.2.2.2 of MQTT Version 5.0. */
  function AllowedIn(command: int): set<int> {
    if command == CMD_WILL then APPLICATION + {24, 38}
    else
      match command / 16
      case 1 => {17, 21, 22, 23, 25, 33, 34, 38, 39}
      case 2 => {17, 18, 19, 21, 22, 26, 28, 31, 33, 34, 36, 37, 38, 39, 40, 41, 42}
      case 3 => APPLICATION + {11, 35, 38}
      case 4 | 5 | 6 | 7 | 9 | 11 => {31, 38}
      case 8 => {11, 38}
      case 10 => {38}
      case 14 => {17, 28, 31, 38}
      case 15 => {21, 22, 31, 38}
      case _ => {}
  }

  /** The packets that property lists are checked for. */
  predicate HasProperties(command: int) { command == CMD_WILL || (0 < command < 0x100 && command % 16 == 0 && AllowedIn(command) != {}) }

  /** The check follows the standard for every packet that has properties and
      every identifier, but for a Reason String in will properties. */
  lemma CheckCommandExact(command: int, id: int)
    requires HasProperties(command)
    ensures CheckCommand(command, id) == SUCCESS <==> id in AllowedIn(command) || (command == CMD_WILL && id == 31)
  {
    if command == CMD_WILL {
    } else {
      match command / 16
      case 1 => case 2 => case 3 => case 8 => case 10 => case 14 => case 15 =>
      case _ =>
    }
  }

  predicate Flag(id: int) {
    id in {REQUEST_PROBLEM_INFORMATION, REQUEST_RESPONSE_INFORMATION, MAXIMUM_QOS, RETAIN_AVAILABLE,
           WILDCARD_SUB_AVAILABLE, SUBSCRIPTION_ID_AVAILABLE, SHARED_SUB_AVAILABLE}
  }

  /** The value checks of mosquitto_property_check_all: flags are 0 or 1, and
      some integers are not 0. */
  predicate ValueOk(p: Property) {
    && (Flag(p.identifier) && p.value.Byte? ==> p.value.i8 <= 1)
    && (p.identifier == MAXIMUM_PACKET_SIZE && p.value.Int32? ==> p.value.i32 != 0)
    && (p.identifier in {RECEIVE_MAXIMUM, TOPIC_ALIAS} && p.value.Int16? ==> p.value.i16 != 0)
  }

  predicate Repeated(p: Property, q: Property) { p.identifier == q.identifier && p.identifier != USER_PROPERTY }

  /** mosquitto_property_check_all: the result for the first property at fault. */
  function FirstFault(command: int, ps: seq<Property>): int {
    if ps == [] then SUCCESS
    else if !ValueOk(ps[0]) then ERR_PROTOCOL
    else if CheckCommand(command, ps[0].identifier) != SUCCESS then CheckCommand(command, ps[0].identifier)
    else if exists q | q in ps[1..] :: Repeated(ps[0], q) then ERR_DUPLICATE_PROPERTY
    else FirstFault(command, ps[1..])
  }

  /** What an accepted list is: every property in its place, with a legal value,
      and none but user properties more than once. */
  predicate Acceptable(command: int, ps: seq<Property>) {
    && (forall i | 0 <= i < |ps| :: ValueOk(ps[i]) && CheckCommand(command, ps[i].identifier) == SUCCESS)
    && (forall i, j | 0 <= i < j < |ps| :: !Repeated(ps[i], ps[j]))
  }

  /** Otherwise the result is that of the first property at fault: a protocol error
      for a value or a place, a duplicate for a repetition further on. */
  lemma {:induction false} FaultExact(command: int, ps: seq<Property>) returns (k: nat)
    requires FirstFault(command, ps) != SUCCESS
    ensures k < |ps|
    ensures forall i | 0 <= i < k ::
              && ValueOk(ps[i]) && CheckCommand(command, ps[i].identifier) == SUCCESS
              && forall q | q in ps[i + 1..] :: !Repeated(ps[i], q)
    ensures if !ValueOk(ps[k]) || CheckCommand(command, ps[k].identifier) != SUCCESS then FirstFault(command, ps) == ERR_PROTOCOL
            else FirstFault(command, ps) == ERR_DUPLICATE_PROPERTY && exists q | q in ps[k + 1..] :: Repeated(ps[k], q)
  {
    hide ValueOk, Repeated;
    if ValueOk(ps[0]) && CheckCommand(command, ps[0].identifier) == SUCCESS && forall q | q in ps[1..] :: !Repeated(ps[0], q) {
      var j := FaultExact(command, ps[1..]);
      k := j + 1;
      assert forall i | 1 <= i <= k :: ps[i] == ps[1..][i - 1] && ps[i + 1..] == ps[1..][i..];
    } else {
      k := 0;
    }
  }

  lemma {:induction false} CheckAllExact(command: int, ps: seq<Property>)
    ensures FirstFault(command, ps) == SUCCESS <==> Acceptable(command, ps)
  {
    if ps != [] {
      var rest := ps[1..];
      CheckAllExact(command, rest);
      assert forall i | 1 <= i < |ps| :: ps[i] == rest[i - 1];
      if Acceptable(command, ps) {
        forall q | q in rest ensures !Repeated(ps[0], q) {
          var k :| 0 <= k < |rest| && rest[k] == q;
          assert ps[k + 1] == q;
        }
        forall i, j | 0 <= i < j < |rest| ensures !Repeated(rest[i], rest[j]) {
          assert rest[i] == ps[i + 1] && rest[j] == ps[j + 1];
        }
        forall i | 0 <= i < |rest| ensures ValueOk(rest[i]) && CheckCommand(command, rest[i].identifier) == SUCCESS {
          assert rest[i] == ps[i + 1];
        }
      }
      if FirstFault(command, ps) == SUCCESS {
        forall i, j | 0 <= i < j < |ps| ensures !Repeated(ps[i], ps[j]) {
          assert ps[j] == rest[j - 1];
          if i > 0 { assert ps[i] == rest[i - 1]; } else { assert ps[j] in rest; }
        }
      }
    }
  }

  /** The values that the standard gives a meaning (sections 3.1.2.11, 3.1.3.2,
      3.2.2.3, 3.3.2.3): flags and indicators are 0 or 1, a Subscription Identifier
      is a number from 1 to 268435455, and three maximums or aliases are not 0. */
  predicate StandardValue(p: Property) {
    match p.identifier
    case 1 | 23 | 25 | 36 | 37 | 40 | 41 | 42 => p.value.Byte? && p.value.i8 <= 1
    case 11 => p.value.Varint? && 1 <= p.value.varint <= 268435455
    case 33 | 35 => p.value.Int16? && p.value.i16 != 0
    case 39 => p.value.Int32? && p.value.i32 != 0
    case _ => true
  }

  /** What the standard accepts of identifiers, numbers and repetitions: a user
      property may come more than once, and in a PUBLISH a Subscription Identifier,
      one for each subscription that it matches (section 3.3.2.3.8). */
  predicate AcceptedByStandard(command: int, ps: seq<Property>) {
    && (forall i | 0 <= i < |ps| :: StandardValue(ps[i]) && ps[i].identifier in AllowedIn(command))
    && (forall i, j | 0 <= i < j < |ps| && ps[i].identifier == ps[j].identifier ::
          ps[i].identifier == 38 || (command == 0x30 && ps[i].identifier == 11))
  }

  lemma StandardIsOk(p: Property)
    requires StandardValue(p)
    ensures ValueOk(p)
  {
  }

  function SubscriptionIds(ps: seq<Property>): nat {
    if ps == [] then 0 else (if ps[0].identifier == 11 then 1 else 0) + SubscriptionIds(ps[1..])
  }

  lemma {:induction false} NoSubscriptionIds(ps: seq<Property>)
    ensures SubscriptionIds(ps) == 0 <==> forall q | q in ps :: q.identifier != SUBSCRIPTION_IDENTIFIER
  {
    if ps != [] {
      NoSubscriptionIds(ps[1..]);
      assert forall q | q in ps :: q == ps[0] || q in ps[1..];
      assert ps[0] in ps && forall q | q in ps[1..] :: q in ps;
    }
  }

  /** Of the lists that the standard accepts in a PUBLISH, the code accepts exactly
      those with at most one Subscription Identifier. */
  lemma {:induction false} SubscriptionIdsExact(ps: seq<Property>)
    requires AcceptedByStandard(CMD_PUBLISH, ps)
    ensures FirstFault(CMD_PUBLISH, ps) == if SubscriptionIds(ps) <= 1 then SUCCESS else ERR_DUPLICATE_PROPERTY
  {
    if ps != [] {
      var p, rest := ps[0], ps[1..];
      assert forall i | 1 <= i < |ps| :: ps[i] == rest[i - 1];
      assert AcceptedByStandard(CMD_PUBLISH, rest) by {
        assert forall i | 0 <= i < |rest| :: rest[i] == ps[i + 1];
      }
      CheckCommandExact(CMD_PUBLISH, p.identifier);
      StandardIsOk(p);
      SubscriptionIdsExact(rest);
      NoSubscriptionIds(rest);
      hide CheckCommand, AllowedIn, ValueOk, StandardValue;
      if exists q | q in rest :: Repeated(p, q) {
        var q :| q in rest && Repeated(p, q);
        var j :| 0 <= j < |rest| && rest[j] == q;
        assert ps[0].identifier == ps[j + 1].identifier;
      }
    }
  }

  /** In every other packet it accepts all that the standard accepts. */
  lemma {:induction false} OthersAccepted(command: int, ps: seq<Property>)
    requires HasProperties(command) && command != CMD_PUBLISH && AcceptedByStandard(command, ps)
    ensures FirstFault(command, ps) == SUCCESS
  {
    hide FirstFault, CheckCommand, AllowedIn, ValueOk, StandardValue, HasProperties;
    forall i | 0 <= i < |ps| ensures ValueOk(ps[i]) && CheckCommand(command, ps[i].identifier) == SUCCESS {
      StandardIsOk(ps[i]);
      CheckCommandExact(command, ps[i].identifier);
    }
    forall i, j | 0 <= i < j < |ps| ensures !Repeated(ps[i], ps[j]) {
      if ps[i].identifier == ps[j].identifier { assert ps[i].identifier == 38; }
    }
    CheckAllExact(command, ps);
  }

  /** The shortest list on which they differ. */
  lemma TwoSubscriptionIds(a: nat, b: nat)
    requires 1 <= a <= MAX_VARINT && 1 <= b <= MAX_VARINT
    ensures var ps := [Property(SUBSCRIPTION_IDENTIFIER, Varint(a)), Property(SUBSCRIPTION_IDENTIFIER, Varint(b))];
            AcceptedByStandard(CMD_PUBLISH, ps) && FirstFault(CMD_PUBLISH, ps) == ERR_DUPLICATE_PROPERTY
  {
    var ps := [Property(SUBSCRIPTION_IDENTIFIER, Varint(a)), Property(SUBSCRIPTION_IDENTIFIER, Varint(b))];
    assert ps[1..] == [ps[1]] && [ps[1]][1..] == [];
    SubscriptionIdsExact(ps);
  }

  /** What the code does not look at: two values, and a Reason String in a will. */
  predicate Overlooked(command: int, p: Property) {
    || (p.identifier == 11 && p.value == Varint(0))
    || (p.identifier == 1 && p.value.Byte? && p.value.i8 > 1)
    || (p.identifier == 31 && command == CMD_WILL)
  }

  lemma OverlookedExact(command: int, p: Property)
    requires HasProperties(command) && Encodable(p) && ValueOk(p) && CheckCommand(command, p.identifier) == SUCCESS
    ensures StandardValue(p) && p.identifier in AllowedIn(command) <==> !Overlooked(command, p)
  {
    CheckCommandExact(command, p.identifier);
    hide CheckCommand, HasProperties;
  }

  /** Conversely, a list that the code accepts is accepted by the standard exactly if
      it has nothing of that kind. */
  lemma AcceptedExact(command: int, ps: seq<Property>)
    requires HasProperties(command) && FirstFault(command, ps) == SUCCESS && forall p | p in ps :: Encodable(p)
    ensures AcceptedByStandard(command, ps) <==> forall i | 0 <= i < |ps| :: !Overlooked(command, ps[i])
  {
    hide FirstFault, CheckCommand, ValueOk, StandardValue, Overlooked, Encodable, AllowedIn, HasProperties;
    CheckAllExact(command, ps);
    forall i | 0 <= i < |ps| ensures StandardValue(ps[i]) && ps[i].identifier in AllowedIn(command) <==> !Overlooked(command, ps[i]) {
      assert ps[i] in ps;
      OverlookedExact(command, ps[i]);
    }
    forall i, j | 0 <= i < j < |ps| && ps[i].identifier == ps[j].identifier ensures ps[i].identifier == 38 {
      assert !Repeated(ps[i], ps[j]);
    }
  }

  /** Such a list. */
  lemma ZeroSubscriptionId()
    ensures var ps := [Property(SUBSCRIPTION_IDENTIFIER, Varint(0))];
            FirstFault(CMD_PUBLISH, ps) == SUCCESS && !AcceptedByStandard(CMD_PUBLISH, ps)
  {
    assert [Property(SUBSCRIPTION_IDENTIFIER, Varint(0))][1..] == [];
  }

  /** The nested loops of mosquitto_property_check_all. */
  method CheckAll(command: int, properties: seq<Property>) returns (rc: int)
    ensures rc == FirstFault(command, properties)
  {
    var i := 0;
    assert properties[0..] == properties;
    while i < |properties|
      invariant 0 <= i <= |properties|
      invariant FirstFault(command, properties) == FirstFault(command, properties[i..])
    {
      var p := properties[i];
      ghost var rest := properties[i..];
      assert rest[1..] == properties[i + 1..];
      if Flag(p.identifier) {
        if p.value.Byte? && p.value.i8 > 1 { return ERR_PROTOCOL; }
      } else if p.identifier == MAXIMUM_PACKET_SIZE {
        if p.value.Int32? && p.value.i32 == 0 { return ERR_PROTOCOL; }
      } else if p.identifier == RECEIVE_MAXIMUM || p.identifier == TOPIC_ALIAS {
        if p.value.Int16? && p.value.i16 == 0 { return ERR_PROTOCOL; }
      }
      assert ValueOk(p);
      rc := CheckCommand(command, p.identifier);
      if rc != SUCCESS { return rc; }
      var j := i + 1;
      while j < |properties|
        invariant i < j <= |properties|
        invariant forall k | i < k < j :: !Repeated(p, properties[k])
      {
        if p.identifier == properties[j].identifier && p.identifier != USER_PROPERTY {
          assert properties[j] in rest[1..];
          return ERR_DUPLICATE_PROPERTY;
        }
        j := j + 1;
      }
      i := i + 1;
    }
    return SUCCESS;
  }

  /** property__read_all succeeds exactly when a declared length is followed by
      the encodings of an acceptable list that covers that length, and it stops
      right behind them. */
  lemma PropertiesExact(command: int, buf: seq<byte>, pos: nat, ps: seq<Property>, next: nat)
    requires pos <= |buf|
    ensures PropertiesAt(command, buf, pos) == Parsed(ps, next) <==>
            && VarintAt(buf, pos).Parsed?
            && AllGood(ps) && Acceptable(command, ps)
            && Covers(EncodeProperty, ps, VarintAt(buf, pos).value)
            && Holds(buf, VarintAt(buf, pos).next, EncodeProperties(ps))
            && next == VarintAt(buf, pos).next + |EncodeProperties(ps)|
  {
    match VarintAt(buf, pos)
    case Failed(_) =>
    case Parsed(left, p) =>
      ReaderReadsBack(buf);
      CheckAllExact(command, ps);
      ReadFromExact(Reader(buf), EncodeProperty, Good(), buf, p, left, ps, next);
  }

  /** What property__read_all consumes: prefix and properties, exactly. It never
      stops short of the declared length, and only the last property can reach
      beyond it. */
  lemma PropertiesConsumed(command: int, buf: seq<byte>, pos: nat, ps: seq<Property>, next: nat)
    requires pos <= |buf| && PropertiesAt(command, buf, pos) == Parsed(ps, next)
    ensures var declared := VarintAt(buf, pos).value;
            && VarintAt(buf, pos).Parsed?
            && next == VarintAt(buf, pos).next + |EncodeProperties(ps)| <= |buf|
            && declared <= |EncodeProperties(ps)|
            && (ps != [] ==> |EncodeProperties(ps[..|ps| - 1])| < declared)
  {
    PropertiesExact(command, buf, pos, ps, next);
    CoversBound(EncodeProperty, ps, VarintAt(buf, pos).value);
  }

  lemma PropertiesAtInside(command: int, buf: seq<byte>, pos: nat)
    requires pos <= |buf|
    ensures match PropertiesAt(command, buf, pos)
            case Parsed(_, next) => pos <= next <= |buf|
            case _ => true
  {
    match PropertiesAt(command, buf, pos)
    case Failed(_) =>
    case Parsed(ps, next) => PropertiesExact(command, buf, pos, ps, next);
  }

  /** What a reader of properties can fail with: a protocol error, malformed UTF-8, a
      malformed packet, a duplicate property. */
  predicate ReadError(rc: int) { rc in {2, 18, 21, 22} }

  lemma {:induction false} FromErrors(buf: seq<byte>, pos: nat, left: int)
    ensures PropertiesFrom(buf, pos, left).Failed? ==> ReadError(PropertiesFrom(buf, pos, left).rc)
    decreases |buf| - pos
  {
    hide ValueAt, VarintAt;
    if left > 0 {
      PropertyErrors(buf, pos);
      match PropertyAt(buf, pos)
      case Failed(_) =>
      case Parsed(_, next) => if pos < next <= |buf| { FromErrors(buf, next, left - (next - pos)); }
    }
  }

  lemma PropertyErrors(buf: seq<byte>, pos: nat)
    ensures PropertyAt(buf, pos).Failed? ==> ReadError(PropertyAt(buf, pos).rc)
  {
    VarintErrors(buf, pos);
    match VarintAt(buf, pos)
    case Failed(_) =>
    case Parsed(_, p) => VarintErrors(buf, p);
    hide VarintAt;
  }

  lemma VarintErrors(buf: seq<byte>, pos: nat)
    ensures VarintAt(buf, pos).Failed? ==> VarintAt(buf, pos).rc == ERR_PROTOCOL
  {
    TailErrors(buf, pos, 0);
  }

  lemma {:induction false} TailErrors(buf: seq<byte>, pos: nat, i: nat)
    requires i <= 4
    ensures VarintTail(buf, pos, i).Failed? ==> VarintTail(buf, pos, i).rc == ERR_PROTOCOL
    decreases 4 - i
  {
    if i < 4 { TailErrors(buf, pos + 1, i + 1); }
  }

  lemma {:induction false} FaultErrors(command: int, ps: seq<Property>)
    ensures FirstFault(command, ps) == SUCCESS || ReadError(FirstFault(command, ps))
  {
    if ps != [] { FaultErrors(command, ps[1..]); }
  }

  lemma ReadErrors(command: int, buf: seq<byte>, pos: nat)
    ensures PropertiesAt(command, buf, pos).Failed? ==> ReadError(PropertiesAt(command, buf, pos).rc)
  {
    hide PropertiesFrom, FirstFault, VarintAt;
    VarintErrors(buf, pos);
    match VarintAt(buf, pos)
    case Failed(_) =>
    case Parsed(left, p) =>
      FromErrors(buf, p, left);
      if PropertiesFrom(buf, p, left).Parsed? { FaultErrors(command, PropertiesFrom(buf, p, left).value); }
  }

  /** property__get_property: the first property with an identifier. */
  function FirstOf(ps: seq<Property>, identifier: nat): (p: Option<Property>)
    ensures p.Some? ==> p.value in ps && p.value.identifier == identifier
    ensures p.None? ==> forall q | q in ps :: q.identifier != identifier
  {
    if ps == [] then None else if ps[0].identifier == identifier then Some(ps[0]) else FirstOf(ps[1..], identifier)
  }

  lemma {:induction false} FirstOfConcat(ps: seq<Property>, qs: seq<Property>, identifier: nat)
    ensures FirstOf(ps + qs, identifier) ==
            if FirstOf(ps, identifier).Some? then FirstOf(ps, identifier) else FirstOf(qs, identifier)
  {
    if ps == [] {
      assert ps + qs == qs;
    } else {
      assert (ps + qs)[1..] == ps[1..] + qs;
      FirstOfConcat(ps[1..], qs, identifier);
    }
  }

  /** mosquitto_property_read_int16 for the Receive Maximum. */
  function ReceiveMaximumOf(ps: seq<Property>): Option<uint16> {
    match FirstOf(ps, RECEIVE_MAXIMUM)
    case Some(Property(_, Int16(max))) => Some(max)
    case _ => None
  }

  /** The other mosquitto_property_read functions: the value of the first property
      with the identifier, or what was there before. */
  function ByteOr(ps: seq<Property>, identifier: nat, before: nat): nat {
    match FirstOf(ps, identifier)
    case Some(Property(_, Byte(b))) => b
    case _ => before
  }

  function Int16Or(ps: seq<Property>, identifier: nat, before: nat): nat {
    match FirstOf(ps, identifier)
    case Some(Property(_, Int16(w))) => w
    case _ => before
  }

  function Int32Or(ps: seq<Property>, identifier: nat, before: nat): nat {
    match FirstOf(ps, identifier)
    case Some(Property(_, Int32(w))) => w
    case _ => before
  }

  function TextOr(ps: seq<Property>, identifier: nat, before: Option<seq<byte>>): Option<seq<byte>> {
    match FirstOf(ps, identifier)
    case Some(Property(_, Text(s))) => Some(s)
    case _ => before
  }

  /** The first property with its identifier. */
  predicate FirstAt(ps: seq<Property>, k: nat) {
    k < |ps| && forall i | 0 <= i < k :: ps[i].identifier != ps[k].identifier
  }

  lemma {:induction false} FirstOfAt(ps: seq<Property>, k: nat)
    requires FirstAt(ps, k)
    ensures FirstOf(ps, ps[k].identifier) == Some(ps[k])
    decreases k
  {
    if k > 0 {
      assert ps[k] == ps[1..][k - 1] && ps[0].identifier != ps[k].identifier;
      assert forall i | 0 <= i < k - 1 :: ps[1..][i] == ps[i + 1];
      FirstOfAt(ps[1..], k - 1);
    }
  }

  /** The readers find the value of that property, */
  lemma ReadsFirst(ps: seq<Property>, k: nat, n: nat, t: Option<seq<byte>>)
    requires FirstAt(ps, k)
    ensures var id := ps[k].identifier;
            match ps[k].value
            case Byte(b) => ByteOr(ps, id, n) == b
            case Int16(w) => Int16Or(ps, id, n) == w && (id == 33 ==> ReceiveMaximumOf(ps) == Some(w))
            case Int32(w) => Int32Or(ps, id, n) == w
            case Text(s) => TextOr(ps, id, t) == Some(s)
            case _ => true
  {
    FirstOfAt(ps, k);
  }

  /** and keep what was there if there is none. */
  lemma ReadsNothing(ps: seq<Property>, id: nat, n: nat, t: Option<seq<byte>>)
    requires forall p | p in ps :: p.identifier != id
    ensures ByteOr(ps, id, n) == Int16Or(ps, id, n) == Int32Or(ps, id, n) == n && TextOr(ps, id, t) == t
    ensures id == 33 ==> ReceiveMaximumOf(ps) == None
  {
  }

  // ---------- the cursor operations ----------

  method ReadTextContents(packet: Packet) returns (rc: int, s: seq<byte>)
    requires packet.Readable()
    modifies packet`pos
    ensures packet.Readable()
    ensures match StringAt(packet.Received(), old(packet.pos))
            case Parsed(v, next) => rc == SUCCESS && s == v && packet.pos == next
            case Failed(e) => rc == e
  {
    var str, length;
    rc, str, length := packet.ReadString();
    if rc != SUCCESS { return rc, []; }
    s := if str == null then [] else str[..length];
  }

  /** The value part of property__read; `used` is what it takes off the declared
      length. */
  method ReadValue(packet: Packet, identifier: nat) returns (rc: int, value: Value, used: nat)
    requires packet.Readable()
    modifies packet`pos
    ensures packet.Readable()
    ensures match ValueAt(KindOf(identifier), packet.Received(), old(packet.pos))
            case Parsed(v, next) =>
              && rc == SUCCESS && value == v && packet.pos == next
              && used == next - old(packet.pos)
            case Failed(e) => rc == e
  {
    hide VarintTail, ValidText, EncodeVarint, Uint16At, Uint32At, ByteAt;
    ghost var buf, pos := packet.Received(), packet.pos;
    value := Byte(0);
    used := 0;
    match KindOf(identifier) {
      case KByte =>
        var b;
        rc, b := packet.ReadByte();
        value, used := Byte(b), 1;
      case KInt16 =>
        var w;
        rc, w := packet.ReadUint16();
        value, used := Int16(w), 2;
      case KInt32 =>
        var l;
        rc, l := packet.ReadUint32();
        value, used := Int32(l), 4;
      case KVarint =>
        var v;
        rc, v, used := packet.ReadVarint();
        value := Varint(v);
        if rc == SUCCESS {
          VarintExact(buf, pos, v, packet.pos);
          EncodeVarintLength(v);
        }
      case KBinary =>
        var data, length;
        rc, data, length := packet.ReadBinary();
        if rc != SUCCESS { return; }
        value, used := Binary(if data == null then [] else data[..length]), 2 + length;
      case KString =>
        var s;
        rc, s := ReadTextContents(packet);
        value, used := Text(s), 2 + |s|;
      case KStringPair =>
        var name, s;
        rc, name := ReadTextContents(packet);
        if rc != SUCCESS { return; }
        rc, s := ReadTextContents(packet);
        value, used := TextPair(name, s), 2 + |name| + 2 + |s|;
      case KUnknown =>
        rc := ERR_MALFORMED_PACKET;
    }
  }

  /** property__read: `left` is the declared length still to be used up. */
  method ReadProperty(packet: Packet, len: int) returns (rc: int, property: Property, left: int)
    requires packet.Readable()
    modifies packet`pos
    ensures packet.Readable()
    ensures match PropertyAt(packet.Received(), old(packet.pos))
            case Parsed(p, next) =>
              rc == SUCCESS && property == p && packet.pos == next && left == len - (next - old(packet.pos))
            case Failed(e) => rc == e
  {
    var id, n, value, used;
    property := Property(0, Byte(0));
    left := len;
    rc, id, n := packet.ReadVarint();
    if rc != SUCCESS { return; }
    left := left - 1;
    if KindOf(id) != KUnknown { IdentifierByte(id); VarintExact(packet.Received(), old(packet.pos), id, packet.pos); }
    rc, value, used := ReadValue(packet, id);
    if rc != SUCCESS { return; }
    left := left - used;
    property := Property(id, value);
  }

  /** The loop of property__read_all. */
  method ReadEach(packet: Packet, declared: nat) returns (rc: int, properties: seq<Property>)
    requires packet.Readable()
    modifies packet`pos
    ensures packet.Readable()
    ensures match PropertiesFrom(packet.Received(), old(packet.pos), declared)
            case Parsed(ps, next) => rc == SUCCESS && properties == ps && packet.pos == next
            case Failed(e) => rc == e
  {
    hide PropertyAt, EncodeProperty, Encodable, ValidTexts, Typed;
    var proplen: int := declared;
    ghost var buf := packet.Received();
    ghost var whole := PropertiesFrom(buf, packet.pos, proplen);
    properties := [];
    PrependStep([], Property(0, Byte(0)), whole);
    while proplen > 0
      invariant packet.Readable()
      invariant whole == Prepend(properties, PropertiesFrom(buf, packet.pos, proplen))
      decreases |buf| - packet.pos
    {
      ghost var pos, left := packet.pos, proplen;
      var p;
      rc, p, proplen := ReadProperty(packet, proplen);
      if rc != SUCCESS { return rc, []; }
      ReaderExact(Reader(buf), EncodeProperty, Good(), buf, pos, p, packet.pos);
      PrependStep(properties, p, PropertiesFrom(buf, packet.pos, proplen));
      properties := properties + [p];
    }
    assert properties + [] == properties;
    return SUCCESS, properties;
  }

  /** property__read_all. */
  method ReadAll(command: int, packet: Packet) returns (rc: int, properties: seq<Property>)
    requires packet.Readable()
    modifies packet`pos
    ensures packet.Readable()
    ensures match PropertiesAt(command, packet.Received(), old(packet.pos))
            case Parsed(ps, next) => rc == SUCCESS && properties == ps && packet.pos == next
            case Failed(e) => rc == e
  {
    hide PropertiesFrom, FirstFault;
    var proplen, n;
    ghost var buf := packet.Received();
    rc, proplen, n := packet.ReadVarint();
    if rc != SUCCESS { return rc, []; }
    assert packet.Received() == buf;
    rc, properties := ReadEach(packet, proplen);
    if rc != SUCCESS { return rc, []; }
    rc := CheckAll(command, properties);
    if rc != SUCCESS { return rc, []; }
  }

  // ---------- writing ----------

  /** What property__write appends: behind an unknown identifier nothing. */
  function Output(p: Property): seq<byte> {
    EncodeVarint(p.identifier) + if KindOf(p.identifier) == KUnknown then [] else EncodeValue(p.value)
  }

  /** And what it returns. */
  function WriteResult(p: Property): int {
    if p.identifier > MAX_VARINT then ERR_PROTOCOL
    else if KindOf(p.identifier) == KUnknown then ERR_INVAL
    else if p.value.Varint? && p.value.varint > MAX_VARINT then ERR_PROTOCOL
    else SUCCESS
  }

  /** It succeeds exactly with a property that has an encoding, which it then
      writes; an unknown identifier is invalid, a number out of range a protocol
      error. */
  lemma WriteResultExact(p: Property)
    requires Storable(p)
    ensures WriteResult(p) == SUCCESS <==> Encodable(p)
    ensures WriteResult(p) == 3 <==> p.identifier <= 268435455 && DataTypeOf(p.identifier).None?
    ensures WriteResult(p) in {0, 2, 3}
    ensures Encodable(p) ==> Output(p) == EncodeProperty(p)
  {
    hide EncodeVarint, EncodeValue;
  }

  /** The length that property__get_length_all adds up. */
  function CountedAll(ps: seq<Property>): nat { if ps == [] then 0 else Counted(ps[0]) + CountedAll(ps[1..]) }

  /** Properties one after the other, up to the first that has no encoding. */
  function OutputAll(ps: seq<Property>): seq<byte> {
    if ps == [] then [] else Output(ps[0]) + if WriteResult(ps[0]) == SUCCESS then OutputAll(ps[1..]) else []
  }

  function ResultAll(ps: seq<Property>): int {
    if ps == [] then SUCCESS else if WriteResult(ps[0]) != SUCCESS then WriteResult(ps[0]) else ResultAll(ps[1..])
  }

  /** A list is written whole, and its length is the one added up, exactly when
      every property in it has an encoding. */
  lemma {:induction false} WriteAllExact(ps: seq<Property>)
    requires forall p | p in ps :: Storable(p)
    ensures ResultAll(ps) == SUCCESS <==> forall p | p in ps :: Encodable(p)
    ensures ResultAll(ps) == SUCCESS ==> OutputAll(ps) == EncodeProperties(ps) && CountedAll(ps) == |EncodeProperties(ps)|
  {
    hide Output, EncodeProperty, WriteResult, Encodable, Storable;
    if ps != [] {
      assert ps[0] in ps && forall p | p in ps :: p == ps[0] || p in ps[1..];
      WriteResultExact(ps[0]);
      WriteAllExact(ps[1..]);
    }
  }

  lemma EncodableStorable(ps: seq<Property>)
    requires forall p | p in ps :: Encodable(p)
    ensures forall p | p in ps :: Storable(p)
  {
  }

  /** property__get_length_all. */
  method GetLengthAll(properties: seq<Property>) returns (len: nat)
    requires forall p | p in properties :: Storable(p)
    ensures len == CountedAll(properties)
  {
    hide Counted, Storable;
    len := 0;
    assert properties[0..] == properties;
    for i := 0 to |properties|
      invariant len + CountedAll(properties[i..]) == CountedAll(properties)
    {
      var n := GetLength(properties[i]);
      len := len + n;
    }
  }

  method WriteValue(packet: Packet, value: Value) returns (rc: int)
    requires (if value.Varint? then value.varint <= 0x7FFF_FFFF else ValueFits(value)) && packet.Room(|EncodeValue(value)|)
    modifies packet`pos, packet.payload
    ensures rc == if value.Varint? && value.varint > MAX_VARINT then ERR_PROTOCOL else SUCCESS
    ensures packet.Writable() && packet.Written() == old(packet.Written()) + EncodeValue(value)
  {
    hide EncodeUint16, EncodeUint32, EncodeVarint;
    rc := SUCCESS;
    match value {
      case Byte(b) => packet.WriteByte(b);
      case Int16(w) => packet.WriteUint16(w);
      case Int32(l) => packet.WriteUint32(l);
      case Varint(v) => rc := packet.WriteVarint(v);
      case Binary(b) => WriteBinary(packet, b);
      case Text(s) => packet.WriteString(s);
      case TextPair(n, s) => WritePair(packet, n, s);
    }
  }

  method WriteBinary(packet: Packet, b: seq<byte>)
    requires Fits(b) && packet.Room(|EncodeBinary(b)|)
    modifies packet`pos, packet.payload
    ensures packet.Writable() && packet.Written() == old(packet.Written()) + EncodeBinary(b)
  {
    hide EncodeUint16;
    packet.WriteUint16(|b|);
    packet.WriteBytes(b);
  }

  method WritePair(packet: Packet, name: seq<byte>, s: seq<byte>)
    requires Fits(name) && Fits(s) && packet.Room(|EncodeBinary(name) + EncodeBinary(s)|)
    modifies packet`pos, packet.payload
    ensures packet.Writable() && packet.Written() == old(packet.Written()) + (EncodeBinary(name) + EncodeBinary(s))
  {
    ghost var w := packet.Written();
    assert |EncodeBinary(name)| == 2 + |name| && |EncodeBinary(s)| == 2 + |s|;
    hide EncodeBinary;
    ConcatAssoc(w, EncodeBinary(name), EncodeBinary(s));
    packet.WriteString(name);
    packet.WriteString(s);
  }

  /** property__write. */
  method WriteProperty(packet: Packet, property: Property) returns (rc: int)
    requires Storable(property) && packet.Room(|Output(property)|)
    modifies packet`pos, packet.payload
    ensures rc == WriteResult(property)
    ensures packet.Writable() && packet.Written() == old(packet.Written()) + Output(property)
  {
    hide EncodeVarint, EncodeValue, ValueFits;
    ghost var w := packet.Written();
    rc := packet.WriteVarint(property.identifier);
    if rc != SUCCESS { return rc; }
    if KindOf(property.identifier) == KUnknown { return ERR_INVAL; }
    ConcatAssoc(w, EncodeVarint(property.identifier), EncodeValue(property.value));
    rc := WriteValue(packet, property.value);
  }

  /** The loop of property__write_all. */
  method WriteEach(packet: Packet, properties: seq<Property>) returns (rc: int)
    requires (forall p | p in properties :: Storable(p)) && packet.Room(|OutputAll(properties)|)
    modifies packet`pos, packet.payload
    ensures rc == ResultAll(properties)
    ensures packet.Writable() && packet.Written() == old(packet.Written()) + OutputAll(properties)
  {
    hide Output, WriteResult, Storable;
    ghost var start := packet.Written();
    assert properties[0..] == properties;
    for i := 0 to |properties|
      invariant packet.Room(|OutputAll(properties[i..])|)
      invariant packet.Written() + OutputAll(properties[i..]) == start + OutputAll(properties)
      invariant ResultAll(properties[i..]) == ResultAll(properties)
    {
      ghost var w, rest := packet.Written(), if WriteResult(properties[i]) == SUCCESS then OutputAll(properties[i + 1..]) else [];
      assert OutputAll(properties[i..]) == Output(properties[i]) + rest;
      ConcatAssoc(w, Output(properties[i]), rest);
      rc := WriteProperty(packet, properties[i]);
      if rc != SUCCESS { return rc; }
    }
    return SUCCESS;
  }

  /** What property__write_all appends and returns: a length that has no encoding
      ends it. */
  function ListOutput(ps: seq<Property>, writeLen: bool): seq<byte> {
    if !writeLen then OutputAll(ps)
    else EncodeVarint(CountedAll(ps)) + if CountedAll(ps) <= MAX_VARINT then OutputAll(ps) else []
  }

  function ListResult(ps: seq<Property>, writeLen: bool): int {
    if writeLen && CountedAll(ps) > MAX_VARINT then ERR_PROTOCOL else ResultAll(ps)
  }

  /** It succeeds exactly with a list that has an encoding, and a length in front that
      has one too; a length out of range is a protocol error. */
  lemma ListResultExact(ps: seq<Property>, writeLen: bool)
    requires forall p | p in ps :: Storable(p)
    ensures ListResult(ps, writeLen) == SUCCESS <==>
            (forall p | p in ps :: Encodable(p)) && (writeLen ==> |EncodeProperties(ps)| <= 268435455)
    ensures ListResult(ps, writeLen) in {0, 2, 3}
    ensures writeLen && CountedAll(ps) > 268435455 ==> ListResult(ps, writeLen) == 2
  {
    hide Storable, Encodable, CountedAll, ResultAll, OutputAll, EncodeProperties;
    WriteAllExact(ps);
    ResultCodes(ps);
    if forall p | p in ps :: Encodable(p) { assert ResultAll(ps) == SUCCESS; }
  }

  lemma {:induction false} ResultCodes(ps: seq<Property>)
    ensures ResultAll(ps) in {0, 2, 3}
  {
    if ps != [] { ResultCodes(ps[1..]); }
  }

  /** property__write_all. */
  method WriteAll(packet: Packet, properties: seq<Property>, writeLen: bool) returns (rc: int)
    requires (forall p | p in properties :: Storable(p)) && CountedAll(properties) <= 0x7FFF_FFFF
    requires packet.Room(|ListOutput(properties, writeLen)|)
    modifies packet`pos, packet.payload
    ensures rc == ListResult(properties, writeLen)
    ensures packet.Writable() && packet.Written() == old(packet.Written()) + ListOutput(properties, writeLen)
  {
    hide EncodeVarint, OutputAll, ResultAll, CountedAll;
    ghost var w := packet.Written();
    if writeLen {
      var len := GetLengthAll(properties);
      rc := packet.WriteVarint(len);
      if rc != SUCCESS { return rc; }
      ConcatAssoc(w, EncodeVarint(len), OutputAll(properties));
    }
    rc := WriteEach(packet, properties);
  }
}
