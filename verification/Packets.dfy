/**
 * One packet buffer and its cursor (struct mosquitto__packet), with the
 * cursor operations of packet_datatypes.c and packet__alloc of packet_mosq.c.
 */
module Packets {
  import opened Mqtt
  import opened Wire
  import Utf8

  class Packet {
    var command: byte
    var mid: uint16
    var next: Packet?
    var payload: array<byte>
    var remainingLength: uint32
    var remainingCount: int
    var remainingMult: nat
    var packetLength: nat
    var toProcess: nat
    var pos: nat

    /** A zeroed packet. */
    constructor (command: byte, remainingLength: uint32, mid: uint16 := 0)
      ensures this.command == command && this.remainingLength == remainingLength && this.mid == mid
      ensures next == null && pos == packetLength == toProcess == remainingCount == 0 && remainingMult == 1
      ensures fresh(payload) && payload.Length == 0
    {
      this.command, this.remainingLength, this.mid := command, remainingLength, mid;
      payload := new byte[0];
      next := null;
      remainingCount, remainingMult, packetLength, toProcess, pos := 0, 1, 0, 0, 0;
    }

    // ---------- a received packet ----------

    /** The payload is the remaining length long; the cursor is inside it. */
    ghost predicate Readable()
      reads this
    {
      pos <= remainingLength == payload.Length
    }

    ghost function Received(): seq<byte>
      reads this`payload, payload
    {
      payload[..]
    }

    method ReadByte() returns (rc: int, b: byte)
      requires Readable()
      modifies this`pos
      ensures Readable()
      ensures match ByteAt(Received(), old(pos))
              case Parsed(v, next) => rc == SUCCESS && b == v && pos == next
              case Failed(e) => rc == e
    {
      if pos + 1 > remainingLength { return ERR_PROTOCOL, 0; }
      b := payload[pos];
      pos := pos + 1;
      return SUCCESS, b;
    }

    method ReadUint16() returns (rc: int, word: uint16)
      requires Readable()
      modifies this`pos
      ensures Readable()
      ensures match Uint16At(Received(), old(pos))
              case Parsed(v, next) => rc == SUCCESS && word == v && pos == next
              case Failed(e) => rc == e
    {
      if pos + 2 > remainingLength { return ERR_PROTOCOL, 0; }
      var msb := payload[pos];
      pos := pos + 1;
      var lsb := payload[pos];
      pos := pos + 1;
      return SUCCESS, Word(msb, lsb);
    }

    method ReadUint32() returns (rc: int, word: uint32)
      requires Readable()
      modifies this`pos
      ensures Readable()
      ensures match Uint32At(Received(), old(pos))
              case Parsed(v, next) => rc == SUCCESS && word == v && pos == next
              case Failed(e) => rc == e
    {
      if pos + 4 > remainingLength { return ERR_PROTOCOL, 0; }
      var val := 0;
      ghost var buf, p := Received(), pos;
      for i := 0 to 4
        invariant pos == p + i && Readable()
        invariant i == 0 ==> val == 0
        invariant i == 1 ==> val == buf[p]
        invariant i == 2 ==> val == Word(buf[p], buf[p + 1])
        invariant i == 3 ==> val == Word(Word(buf[p], buf[p + 1]), buf[p + 2])
        invariant i == 4 ==> val == Word(Word(Word(buf[p], buf[p + 1]), buf[p + 2]), buf[p + 3])
      {
        val := Word(val, payload[pos]);
        pos := pos + 1;
      }
      return SUCCESS, val;
    }

    method ReadBytes(count: nat) returns (rc: int, bytes: seq<byte>)
      requires Readable()
      modifies this`pos
      ensures Readable()
      ensures match BytesAt(Received(), old(pos), count)
              case Parsed(v, next) => rc == SUCCESS && bytes == v && pos == next
              case Failed(e) => rc == e
    {
      if pos + count > remainingLength { return ERR_PROTOCOL, []; }
      bytes := payload[pos..pos + count];
      pos := pos + count;
      return SUCCESS, bytes;
    }

    /** packet__read_binary: a copy closed with a NUL, or a null pointer for
        empty data. */
    method ReadBinary() returns (rc: int, data: array?<byte>, length: nat)
      requires Readable()
      modifies this`pos
      ensures Readable()
      ensures match BinaryAt(Received(), old(pos))
              case Parsed(v, next) =>
                && rc == SUCCESS && length == |v| && pos == next
                && (v == [] <==> data == null)
                && (data != null ==>
                      fresh(data) && data.Length == length + 1 && data[length] == 0 && data[..length] == v)
              case Failed(e) => rc == e
    {
      var slen;
      rc, slen := ReadUint16();
      if rc != SUCCESS { return rc, null, 0; }
      if slen == 0 {
        assert Received()[pos..pos] == [];
        return SUCCESS, null, 0;
      }
      if pos + slen > remainingLength { return ERR_PROTOCOL, null, 0; }
      data := new byte[slen + 1];
      forall k | 0 <= k < slen { data[k] := payload[pos + k]; }
      data[slen] := 0;
      assert data[..slen] == Received()[pos..pos + slen];
      pos := pos + slen;
      return SUCCESS, data, slen;
    }

    method ReadString() returns (rc: int, str: array?<byte>, length: int)
      requires Readable()
      modifies this`pos
      ensures Readable()
      ensures match StringAt(Received(), old(pos))
              case Parsed(v, next) =>
                && rc == SUCCESS && length == |v| && pos == next
                && (v == [] <==> str == null)
                && (str != null ==> str.Length == length + 1 && str[..length] == v)
              case Failed(e) => rc == e
    {
      rc, str, length := ReadBinary();
      if rc != SUCCESS { return rc, null, 0; }
      if length == 0 { return SUCCESS, str, length; }
      Utf8.TerminatedExact(str[..], length);
      var bad := Utf8.Validate(str, length);
      if bad != SUCCESS { return ERR_MALFORMED_UTF8, null, -1; }
      return SUCCESS, str, length;
    }

    method ReadVarint() returns (rc: int, word: nat, bytes: nat)
      requires Readable()
      modifies this`pos
      ensures Readable()
      ensures match VarintAt(Received(), old(pos))
              case Parsed(v, next) => rc == SUCCESS && word == v && pos == next && bytes == next - old(pos)
              case Failed(e) => rc == e
    {
      hide VarintTail, Scaled;
      var mult: nat, lword: nat, lbytes := 1, 0, 0;
      ghost var buf, p := Received(), pos;
      ScaledStart(VarintTail(buf, p, 0));
      for i := 0 to 4
        invariant Readable() && pos == p + i && lbytes == i
        invariant VarintAt(buf, p) == Scaled(lword, mult, VarintTail(buf, pos, i))
      {
        VarintTurn(buf, pos, i, lword, mult);
        if pos < remainingLength {
          lbytes := lbytes + 1;
          var b := payload[pos];
          lword := lword + (b % 128) as int * mult;
          mult := mult * 128;
          pos := pos + 1;
          if b < 128 {
            if lbytes > 1 && b == 0 { return ERR_PROTOCOL, 0, 0; }
            return SUCCESS, lword, lbytes;
          }
        } else {
          return ERR_PROTOCOL, 0, 0;
        }
      }
      VarintTurn(buf, pos, 4, lword, mult);
      return ERR_PROTOCOL, 0, 0;
    }

    // ---------- a packet being built ----------

    ghost predicate Writable()
      reads this
    {
      pos <= packetLength == payload.Length
    }

    /** What has been written so far. */
    ghost function Written(): seq<byte>
      requires Writable()
      reads this, payload
    {
      payload[..pos]
    }

    /** The assertions of the write functions: the bytes fit. */
    ghost predicate Room(n: nat)
      reads this
    {
      Writable() && pos + n <= packetLength
    }

    /** The encoding loop of packet__alloc. Five bytes mean that the length is
        too big. */
    static method RemainingBytes(length: uint32) returns (bytes: array<byte>, count: nat)
      ensures fresh(bytes) && bytes.Length == 5 && 1 <= count <= 5
      ensures count < 5 <==> length <= MAX_VARINT
      ensures count < 5 ==> bytes[..count] == EncodeVarint(length)
    {
      bytes := new byte[5];
      var rest := length;
      count := 0;
      while true
        invariant 0 <= count < 5
        invariant EncodeVarint(length) == bytes[..count] + EncodeVarint(rest)
        decreases 5 - count
      {
        var b: byte := rest % 128;
        EncodeStep(rest);
        rest := rest / 128;
        if rest > 0 { b := b + 128; }
        bytes[count] := b;
        count := count + 1;
        assert bytes[..count] == bytes[..count - 1] + [b];
        if !(rest > 0 && count < 5) { break; }
      }
      EncodeLength(length);
    }

    static lemma EncodeStep(n: nat)
      ensures n >= 128 ==> EncodeVarint(n) == [128 + n % 128] + EncodeVarint(n / 128)
      ensures n < 128 ==> EncodeVarint(n) == [n]
    {
    }

    static lemma EncodeLength(n: nat)
      ensures n <= MAX_VARINT <==> |EncodeVarint(n)| <= 4
    {
      if n <= MAX_VARINT { EncodeVarintLength(n); } else { VarintTooLong(n); }
    }

    /** packet__alloc: the buffer, its fixed header already in place. */
    method Alloc() returns (rc: int)
      modifies this
      ensures command == old(command) && remainingLength == old(remainingLength) && mid == old(mid)
      ensures rc == (if remainingLength > MAX_VARINT then ERR_PAYLOAD_SIZE else SUCCESS)
      ensures rc == SUCCESS ==>
                && fresh(payload) && Room(remainingLength)
                && Written() == [command] + EncodeVarint(remainingLength)
                && packetLength == pos + remainingLength
    {
      var remainingBytes, count := RemainingBytes(remainingLength);
      remainingCount := count;
      if remainingCount == 5 { return ERR_PAYLOAD_SIZE; }
      packetLength := remainingLength + 1 + count;
      var buffer := new byte[packetLength];
      buffer[0] := command;
      for i := 0 to count
        modifies buffer
        invariant buffer[..1 + i] == [command] + remainingBytes[..i]
      {
        buffer[i + 1] := remainingBytes[i];
        assert buffer[..i + 2] == buffer[..i + 1] + [remainingBytes[i]];
      }
      payload := buffer;
      pos := 1 + count;
      return SUCCESS;
    }

    method WriteByte(b: byte)
      requires Room(1)
      modifies this`pos, payload
      ensures Writable() && Written() == old(Written()) + [b]
    {
      payload[pos] := b;
      pos := pos + 1;
    }

    method WriteBytes(bytes: seq<byte>)
      requires Room(|bytes|)
      modifies this`pos, payload
      ensures Writable() && Written() == old(Written()) + bytes
    {
      forall k | 0 <= k < |bytes| { payload[pos + k] := bytes[k]; }
      pos := pos + |bytes|;
    }

    method WriteUint16(word: uint16)
      requires Room(2)
      modifies this`pos, payload
      ensures Writable() && Written() == old(Written()) + EncodeUint16(word)
    {
      WriteByte(word / 0x100);
      WriteByte(word % 0x100);
    }

    method WriteUint32(word: uint32)
      requires Room(4)
      modifies this`pos, payload
      ensures Writable() && Written() == old(Written()) + EncodeUint32(word)
    {
      WriteByte(word / 0x100_0000);
      WriteByte(word / 0x1_0000 % 0x100);
      WriteByte(word / 0x100 % 0x100);
      WriteByte(word % 0x100);
    }

    /** The length parameter is 16 bits wide. */
    method WriteString(str: seq<byte>)
      requires Room(|EncodeBinary(str)|)
      modifies this`pos, payload
      ensures Writable() && Written() == old(Written()) + EncodeBinary(str)
    {
      hide EncodeUint16;
      var length := |str| % 0x1_0000;
      WriteUint16(length);
      WriteBytes(str[..length]);
    }

    method WriteVarint(word: nat) returns (rc: int)
      requires word <= 0x7FFF_FFFF && Room(|EncodeVarint(word)|)
      modifies this`pos, payload
      ensures Writable() && Written() == old(Written()) + EncodeVarint(word)
      ensures rc == (if word <= MAX_VARINT then SUCCESS else ERR_PROTOCOL)
    {
      hide EncodeVarint;
      var rest, count := word, 0;
      ghost var start, done: seq<byte> := Written(), [];
      EncodeVarintLength(word);
      while true
        invariant Writable() && 0 <= count < 5 && |done| == count
        invariant Written() == start + done
        invariant EncodeVarint(word) == done + EncodeVarint(rest)
        invariant Room(|EncodeVarint(rest)|)
        decreases 5 - count
      {
        var b: byte := rest % 128;
        EncodeStep(rest);
        rest := rest / 128;
        if rest > 0 { b := b + 128; }
        ConcatAssoc(start, done, [b]);
        ConcatAssoc(done, [b], if rest > 0 then EncodeVarint(rest) else []);
        WriteByte(b);
        done := done + [b];
        count := count + 1;
        if !(rest > 0 && count < 5) { break; }
      }
      EncodeLength(word);
      if count == 5 { return ERR_PROTOCOL; }
      return SUCCESS;
    }
  }
}
