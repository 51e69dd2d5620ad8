/**
 * The byte layouts that MQTT packets are made of, as values: what each writer
 * puts down (Encode*) and what each reader finds at a position of a received
 * packet (*At).  The readers follow packet_datatypes.c branch by branch; the
 * lemmas relate them to the encodings.
 */
module Wire {
  import opened Mqtt
  import Utf8

  // ---------- one and two byte fields, blocks ----------

  function ByteAt(buf: seq<byte>, pos: nat): (r: Parsed<byte>)
    ensures r.Parsed? ==> r.next == pos + 1 <= |buf|
  {
    if pos + 1 > |buf| then Failed(ERR_PROTOCOL) else Parsed(buf[pos], pos + 1)
  }

  /** Big-endian: one more byte on the right. */
  function Word(high: int, low: byte): int { high * 0x100 + low }

  function EncodeUint16(w: uint16): (b: seq<byte>)
    ensures |b| == 2
  {
    [w / 0x100, w % 0x100]
  }

  function Uint16At(buf: seq<byte>, pos: nat): (r: Parsed<uint16>)
    ensures r.Parsed? ==> r.next == pos + 2 <= |buf|
  {
    if pos + 2 > |buf| then Failed(ERR_PROTOCOL)
    else Parsed(Word(buf[pos], buf[pos + 1]), pos + 2)
  }

  function EncodeUint32(w: uint32): (b: seq<byte>)
    ensures |b| == 4
  {
    [w / 0x100_0000, w / 0x1_0000 % 0x100, w / 0x100 % 0x100, w % 0x100]
  }

  function Uint32At(buf: seq<byte>, pos: nat): (r: Parsed<uint32>)
    ensures r.Parsed? ==> r.next == pos + 4 <= |buf|
  {
    if pos + 4 > |buf| then Failed(ERR_PROTOCOL)
    else Parsed(Word(Word(Word(buf[pos], buf[pos + 1]), buf[pos + 2]), buf[pos + 3]), pos + 4)
  }

  function BytesAt(buf: seq<byte>, pos: nat, count: nat): Parsed<seq<byte>> {
    if pos + count > |buf| then Failed(ERR_PROTOCOL) else Parsed(buf[pos..pos + count], pos + count)
  }

  // ---------- strings and binary data ----------

  predicate Fits(s: seq<byte>) { |s| < 0x1_0000 }

  /** Length prefix and contents; also the layout of a UTF-8 string. The length
      parameter is 16 bits wide, so what does not fit is cut off. */
  function EncodeBinary(s: seq<byte>): (b: seq<byte>)
    ensures Fits(s) ==> |b| == 2 + |s|
  {
    var length := |s| % 0x1_0000;
    EncodeUint16(length) + s[..length]
  }

  function BinaryAt(buf: seq<byte>, pos: nat): (r: Parsed<seq<byte>>)
    ensures r.Parsed? ==> r.next == pos + 2 + |r.value| <= |buf|
  {
    match Uint16At(buf, pos)
    case Failed(rc) => Failed(rc)
    case Parsed(slen, p) => BytesAt(buf, p, slen)
  }

  ghost function StringAt(buf: seq<byte>, pos: nat): (r: Parsed<seq<byte>>)
    ensures r.Parsed? ==> r.next == pos + 2 + |r.value| <= |buf|
  {
    match BinaryAt(buf, pos)
    case Failed(rc) => Failed(rc)
    case Parsed(s, p) => if s == [] || Utf8.WellFormed(s) then Parsed(s, p) else Failed(ERR_MALFORMED_UTF8)
  }

  // ---------- variable byte integers ----------

  /** Seven bits a byte, least significant first, top bit set on all but the last. */
  function EncodeVarint(n: nat): (b: seq<byte>)
    ensures |b| >= 1
  {
    if n < 128 then [n] else [128 + n % 128] + EncodeVarint(n / 128)
  }

  /** packet__varint_bytes; 5 stands for "too big". */
  function VarintBytes(n: nat): nat {
    if n < 128 then 1 else if n < 16384 then 2 else if n < 2097152 then 3 else if n < 268435456 then 4 else 5
  }

  /** What is left of a variable byte integer after `i` of its bytes have been
      read. The terminator may not be a superfluous zero byte. */
  function VarintTail(buf: seq<byte>, pos: nat, i: nat): (r: Parsed<nat>)
    requires i <= 4
    ensures r.Parsed? ==> pos < r.next <= |buf|
    decreases 4 - i
  {
    if i == 4 || pos >= |buf| then Failed(ERR_PROTOCOL)
    else if buf[pos] < 128 then
      if i > 0 && buf[pos] == 0 then Failed(ERR_PROTOCOL) else Parsed(buf[pos], pos + 1)
    else
      match VarintTail(buf, pos + 1, i + 1)
      case Failed(rc) => Failed(rc)
      case Parsed(v, next) => Parsed(buf[pos] - 128 + 128 * v, next)
  }

  function VarintAt(buf: seq<byte>, pos: nat): (r: Parsed<nat>)
    ensures r.Parsed? ==> pos < r.next <= |buf|
  {
    VarintTail(buf, pos, 0)
  }

  /** The value so far, and the weight of the bytes still to come. */
  function Scaled(sofar: nat, mult: nat, r: Parsed<nat>): Parsed<nat> {
    match r
    case Failed(rc) => Failed(rc)
    case Parsed(v, next) => Parsed(sofar + v * mult, next)
  }

  lemma ScaledStart(r: Parsed<nat>)
    ensures Scaled(0, 1, r) == r
  {
  }

  /** One turn of the reading loop. */
  lemma VarintTurn(buf: seq<byte>, pos: nat, i: nat, sofar: nat, mult: nat)
    requires i <= 4
    ensures Scaled(sofar, mult, VarintTail(buf, pos, i)) ==
            if i == 4 || pos >= |buf| then Failed(ERR_PROTOCOL)
            else if buf[pos] >= 128 then
              Scaled(sofar + (buf[pos] as int - 128) * mult, mult * 128, VarintTail(buf, pos + 1, i + 1))
            else if i > 0 && buf[pos] == 0 then Failed(ERR_PROTOCOL)
            else Parsed(sofar + buf[pos] as int * mult, pos + 1)
  {
    if i < 4 && pos < |buf| && buf[pos] >= 128 {
      var low: int := buf[pos] - 128;
      match VarintTail(buf, pos + 1, i + 1)
      case Failed(_) =>
      case Parsed(v, _) => assert (low + 128 * v) * mult == low * mult + v * (mult * 128);
    }
  }

  lemma {:induction false} EncodeVarintLength(n: nat)
    requires n <= 0x7FFF_FFFF
    ensures |EncodeVarint(n)| == VarintBytes(n)
  {
    if n >= 128 {
      assert EncodeVarint(n) == [128 + n % 128] + EncodeVarint(n / 128);
      if n < 268435456 { EncodeVarintLength(n / 128); } else { EncodeVarintHuge(n); }
    }
  }

  lemma {:induction false} EncodeVarintHuge(n: nat)
    requires 268435456 <= n <= 0x7FFF_FFFF
    ensures |EncodeVarint(n)| == 5
  {
    var n1 := n / 128;
    var n2 := n1 / 128;
    var n3 := n2 / 128;
    assert EncodeVarint(n) == [128 + n % 128] + EncodeVarint(n1);
    assert EncodeVarint(n1) == [128 + n1 % 128] + EncodeVarint(n2);
    assert EncodeVarint(n2) == [128 + n2 % 128] + EncodeVarint(n3);
    assert EncodeVarint(n3) == [128 + n3 % 128] + EncodeVarint(n3 / 128);
  }

  /** `s` stands in `buf` at `pos`. */
  predicate Holds(buf: seq<byte>, pos: nat, s: seq<byte>) {
    pos + |s| <= |buf| && buf[pos..pos + |s|] == s
  }

  lemma HoldsCons(buf: seq<byte>, pos: nat, b: byte, s: seq<byte>)
    ensures Holds(buf, pos, [b] + s) <==> pos < |buf| && buf[pos] == b && Holds(buf, pos + 1, s)
  {
    if pos + 1 + |s| <= |buf| {
      assert buf[pos..pos + 1 + |s|] == [buf[pos]] + buf[pos + 1..pos + 1 + |s|];
    }
  }

  lemma HoldsNothing(buf: seq<byte>, pos: nat)
    ensures Holds(buf, pos, []) <==> pos <= |buf|
  {
  }

  lemma EncodeHead(v: nat, c: byte, rest: seq<byte>)
    requires c == (if v < 128 then v else 128 + v % 128) && rest == if v < 128 then [] else EncodeVarint(v / 128)
    ensures EncodeVarint(v) == [c] + rest && |EncodeVarint(v)| == 1 + |rest|
  {
  }

  /** The reader accepts a value exactly when the canonical encoding of that
      value stands at the cursor and no more than 4 bytes are used in all. */
  lemma {:induction false} VarintTailExact(buf: seq<byte>, pos: nat, i: nat, v: nat, next: nat)
    requires i <= 4
    ensures VarintTail(buf, pos, i) == Parsed(v, next) <==>
            && (i == 0 || v > 0)
            && i + |EncodeVarint(v)| <= 4
            && Holds(buf, pos, EncodeVarint(v))
            && next == pos + |EncodeVarint(v)|
    decreases 4 - i
  {
    hide Holds, EncodeVarint;
    var c: byte := if v < 128 then v else 128 + v % 128;
    var rest := if v < 128 then [] else EncodeVarint(v / 128);
    EncodeHead(v, c, rest);
    HoldsCons(buf, pos, c, rest);
    HoldsNothing(buf, pos + 1);
    if i < 4 && pos < |buf| && buf[pos] >= 128 {
      VarintTailExact(buf, pos + 1, i + 1, v / 128, next);
      match VarintTail(buf, pos + 1, i + 1)
      case Failed(_) =>
      case Parsed(w, _) => SevenBits(buf[pos] - 128, w, v);
    }
  }

  /** Seven bits and the rest make up a value in one way. */
  lemma SevenBits(low: nat, w: nat, v: nat)
    requires low < 128
    ensures v == low + 128 * w <==> v % 128 == low && v / 128 == w
  {
  }

  /** Reading a variable byte integer succeeds with `v` exactly when `v` is in
      range and its canonical, shortest encoding stands at the cursor. */
  lemma VarintExact(buf: seq<byte>, pos: nat, v: nat, next: nat)
    ensures VarintAt(buf, pos) == Parsed(v, next) <==>
            v <= MAX_VARINT && Holds(buf, pos, EncodeVarint(v)) && next == pos + |EncodeVarint(v)|
  {
    VarintTailExact(buf, pos, 0, v, next);
    if v <= MAX_VARINT { EncodeVarintLength(v); } else { VarintTooLong(v); }
  }

  lemma VarintTooLong(v: nat)
    requires v > MAX_VARINT
    ensures |EncodeVarint(v)| >= 5
  {
    var n1 := v / 128;
    var n2 := n1 / 128;
    var n3 := n2 / 128;
    assert EncodeVarint(v) == [128 + v % 128] + EncodeVarint(n1);
    assert EncodeVarint(n1) == [128 + n1 % 128] + EncodeVarint(n2);
    assert EncodeVarint(n2) == [128 + n2 % 128] + EncodeVarint(n3);
    assert EncodeVarint(n3) == [128 + n3 % 128] + EncodeVarint(n3 / 128);
  }

  // ---------- fixed layouts read back ----------

  lemma ConcatAssoc(a: seq<byte>, b: seq<byte>, c: seq<byte>)
    ensures (a + b) + c == a + (b + c)
  {
  }

  lemma ConcatFour(w: seq<byte>, t: seq<byte>, m: seq<byte>, b: seq<byte>, y: seq<byte>)
    ensures w + t + m + b + y == w + (t + m + b + y)
  {
  }

  lemma HoldsSize(buf: seq<byte>, pos: nat, s: seq<byte>)
    requires Holds(buf, pos, s)
    ensures pos + |s| <= |buf|
  {
  }

  lemma HoldsSlice(buf: seq<byte>, pos: nat, s: seq<byte>, t: seq<byte>)
    requires Holds(buf, pos, s + t)
    ensures Holds(buf, pos, s) && Holds(buf, pos + |s|, t)
  {
    assert buf[pos..pos + |s|] == (s + t)[..|s|];
    assert buf[pos + |s|..pos + |s| + |t|] == (s + t)[|s|..];
  }

  lemma HoldsWhole(s: seq<byte>)
    ensures Holds(s, 0, s)
  {
  }

  lemma HoldsThree(buf: seq<byte>, pos: nat, s: seq<byte>, t: seq<byte>, u: seq<byte>)
    requires Holds(buf, pos, s + t + u)
    ensures Holds(buf, pos, s) && Holds(buf, pos + |s|, t) && Holds(buf, pos + |s| + |t|, u)
  {
    HoldsSlice(buf, pos, s + t, u);
    HoldsSlice(buf, pos, s, t);
  }

  lemma HoldsJoin(buf: seq<byte>, pos: nat, s: seq<byte>, t: seq<byte>)
    requires Holds(buf, pos, s) && Holds(buf, pos + |s|, t)
    ensures Holds(buf, pos, s + t)
  {
    assert buf[pos..pos + |s + t|] == buf[pos..pos + |s|] + buf[pos + |s|..pos + |s| + |t|];
  }

  lemma Uint16Exact(buf: seq<byte>, pos: nat, w: uint16, next: nat)
    ensures Uint16At(buf, pos) == Parsed(w, next) <==> Holds(buf, pos, EncodeUint16(w)) && next == pos + 2
  {
    if pos + 2 <= |buf| {
      assert buf[pos..pos + 2] == [buf[pos], buf[pos + 1]];
      if Word(buf[pos], buf[pos + 1]) == w { assert w / 0x100 == buf[pos] && w % 0x100 == buf[pos + 1]; }
    }
  }

  lemma WordSplit(high: int, low: byte)
    ensures Word(high, low) / 0x100 == high && Word(high, low) % 0x100 == low
  {
  }

  lemma Uint32Bytes(b0: byte, b1: byte, b2: byte, b3: byte)
    ensures var w := Word(Word(Word(b0, b1), b2), b3);
            0 <= w < 0x1_0000_0000 && EncodeUint32(w) == [b0, b1, b2, b3]
  {
    var w1, w2, w3 := Word(b0, b1), Word(Word(b0, b1), b2), Word(Word(Word(b0, b1), b2), b3);
    WordSplit(b0, b1);
    WordSplit(w1, b2);
    WordSplit(w2, b3);
    assert w3 / 0x1_0000 == w3 / 0x100 / 0x100;
    assert w3 / 0x100_0000 == w3 / 0x100 / 0x100 / 0x100;
  }

  lemma Uint32Value(w: uint32)
    ensures var b := EncodeUint32(w); Word(Word(Word(b[0], b[1]), b[2]), b[3]) == w
  {
    assert w / 0x1_0000 == w / 0x100_0000 * 0x100 + w / 0x1_0000 % 0x100;
    assert w / 0x100 == w / 0x1_0000 * 0x100 + w / 0x100 % 0x100;
    assert w == w / 0x100 * 0x100 + w % 0x100;
  }

  /** Bytes read as a number, most significant first (section 1.5.2). */
  function Number(b: seq<byte>): nat { if b == [] then 0 else Number(b[..|b| - 1]) * 256 + b[|b| - 1] }

  /** Integers are laid out that way. */
  lemma BigEndian(w: uint16, d: uint32)
    ensures |EncodeUint16(w)| == 2 && Number(EncodeUint16(w)) == w
    ensures |EncodeUint32(d)| == 4 && Number(EncodeUint32(d)) == d
  {
    hide Number;
    TwoBytesNumber(EncodeUint16(w));
    FourBytesNumber(EncodeUint32(d));
    Uint32Value(d);
  }

  /** Groups of seven bits, the lowest first (section 1.5.5). */
  function Groups(b: seq<byte>): nat { if b == [] then 0 else b[0] % 128 + 128 * Groups(b[1..]) }

  /** A number in such groups, each but the last with the high bit set, and no group
      more than it takes. */
  predicate Grouped(b: seq<byte>, n: nat) {
    && b != [] && Groups(b) == n
    && (forall i | 0 <= i < |b| - 1 :: b[i] >= 128)
    && b[|b| - 1] < 128 && (b[|b| - 1] == 0 ==> |b| == 1)
  }

  /** Variable byte integers are laid out that way. */
  lemma {:induction false} VarintGroups(n: nat)
    ensures Grouped(EncodeVarint(n), n)
  {
    var b := EncodeVarint(n);
    if n >= 128 {
      var m, t := n / 128, EncodeVarint(n / 128);
      VarintGroups(m);
      assert b == [128 + n % 128] + t && b[1..] == t && b[|b| - 1] == t[|t| - 1];
      assert |t| == 1 ==> t[1..] == [] && Groups(t) == t[0] % 128;
      assert Groups(b) == n % 128 + 128 * m;
    } else {
      assert b == [n] && b[1..] == [];
    }
  }

  lemma TwoBytesNumber(b: seq<byte>)
    requires |b| == 2
    ensures Number(b) == b[0] as int * 256 + b[1] as int
  {
    assert b[..1][..0] == [] && b[..1][0] == b[0];
    assert Number(b[..1]) == b[0];
  }

  lemma FourBytesNumber(b: seq<byte>)
    requires |b| == 4
    ensures Number(b) == ((b[0] as int * 256 + b[1] as int) * 256 + b[2] as int) * 256 + b[3] as int
  {
    assert b[..3][..2] == b[..2] && b[..3][2] == b[2];
    TwoBytesNumber(b[..2]);
    assert Number(b[..3]) == Number(b[..2]) * 256 + b[2] as int;
  }

  lemma Uint32Exact(buf: seq<byte>, pos: nat, w: uint32, next: nat)
    ensures Uint32At(buf, pos) == Parsed(w, next) <==> Holds(buf, pos, EncodeUint32(w)) && next == pos + 4
  {
    Uint32Value(w);
    if pos + 4 <= |buf| {
      Uint32Bytes(buf[pos], buf[pos + 1], buf[pos + 2], buf[pos + 3]);
      hide EncodeUint32;
      assert buf[pos..pos + 4] == [buf[pos], buf[pos + 1], buf[pos + 2], buf[pos + 3]];
    }
  }

  lemma BinaryExact(buf: seq<byte>, pos: nat, s: seq<byte>, next: nat)
    ensures BinaryAt(buf, pos) == Parsed(s, next) <==>
            Fits(s) && Holds(buf, pos, EncodeBinary(s)) && next == pos + 2 + |s|
  {
    if BinaryAt(buf, pos) == Parsed(s, next) {
      Uint16Exact(buf, pos, |s|, pos + 2);
      assert buf[pos..pos + 2 + |s|] == buf[pos..pos + 2] + buf[pos + 2..pos + 2 + |s|];
    }
    if Fits(s) { assert s[..|s|] == s; }
    if Fits(s) && Holds(buf, pos, EncodeBinary(s)) {
      HoldsSlice(buf, pos, EncodeUint16(|s|), s);
      Uint16Exact(buf, pos, |s|, pos + 2);
    }
  }
}
