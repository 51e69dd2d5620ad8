/**
 * UTF-8 validation (utf8_mosq.c).
 *
 * The reference definition is the encoding of section 3 of RFC 3629 together
 * with the code points that section 1.5.4 of MQTT Version 5.0 lets a receiver
 * refuse.  The validator is shown to accept exactly the encodings of sequences
 * of permitted code points.
 */
module Utf8 {
  import opened Mqtt

  type CodePoint = c: int | 0 <= c <= 0x10_FFFF

  /** Neither a control character (U+0000 included), nor a surrogate, nor a
      non-character. */
  predicate Permitted(c: CodePoint) {
    && !(c <= 0x1F || 0x7F <= c <= 0x9F)
    && !(0xD800 <= c <= 0xDFFF)
    && !(0xFDD0 <= c <= 0xFDEF)
    && c % 0x1_0000 != 0xFFFE
    && c % 0x1_0000 != 0xFFFF
  }

  /** The shortest-form encoding of one code point. */
  function Encode(c: CodePoint): (b: seq<byte>)
    ensures 1 <= |b| <= 4
  {
    if c < 0x80 then [c]
    else if c < 0x800 then [0xC0 + c / 0x40, 0x80 + c % 0x40]
    else if c < 0x1_0000 then [0xE0 + c / 0x40 / 0x40, 0x80 + c / 0x40 % 0x40, 0x80 + c % 0x40]
    else [0xF0 + c / 0x40 / 0x40 / 0x40, 0x80 + c / 0x40 / 0x40 % 0x40, 0x80 + c / 0x40 % 0x40, 0x80 + c % 0x40]
  }

  function EncodeAll(cs: seq<CodePoint>): seq<byte> {
    if cs == [] then [] else Encode(cs[0]) + EncodeAll(cs[1..])
  }

  ghost predicate Encodes(cs: seq<CodePoint>, b: seq<byte>) {
    (forall c | c in cs :: Permitted(c)) && EncodeAll(cs) == b
  }

  ghost predicate WellFormed(b: seq<byte>) {
    exists cs: seq<CodePoint> :: Encodes(cs, b)
  }

  /** How many bytes the sequence starting with lead byte `b` has; 0 when no
      code point is encoded with that first byte. */
  function SequenceLength(b: byte): nat {
    if b < 0x80 then 1
    else if 0xC2 <= b < 0xE0 then 2
    else if 0xE0 <= b < 0xF0 then 3
    else if 0xF0 <= b <= 0xF4 then 4
    else 0
  }

  predicate Continuation(b: byte) { 0x80 <= b < 0xC0 }

  /** The payload bits of a lead byte. */
  function LeadBits(b: byte): int {
    if b < 0x80 then b
    else if b < 0xE0 then b - 0xC0
    else if b < 0xF0 then b - 0xE0
    else b - 0xF0
  }

  /** The value of the first `k` bytes of a sequence: payload bits of the lead
      byte followed by six bits from each continuation byte. */
  function Accumulate(b: seq<byte>, k: nat): int
    requires 1 <= k <= |b|
    decreases k
  {
    if k == 1 then LeadBits(b[0]) else Accumulate(b, k - 1) * 0x40 + (b[k - 1] as int - 0x80)
  }

  lemma AccumulateFirst(b: seq<byte>)
    requires b != []
    ensures Accumulate(b, 1) == LeadBits(b[0])
  {
  }

  lemma AccumulateNext(b: seq<byte>, k: nat)
    requires 2 <= k <= |b|
    ensures Accumulate(b, k) == Accumulate(b, k - 1) * 0x40 + (b[k - 1] as int - 0x80)
  {
  }

  /** Every encoding can be read back: the lead byte tells the length, the rest
      are continuation bytes, and the accumulated bits are the code point. */
  lemma EncodeShape(c: CodePoint)
    ensures var b := Encode(c);
            && SequenceLength(b[0]) == |b|
            && (forall k | 1 <= k < |b| :: Continuation(b[k]))
            && Accumulate(b, |b|) == c
  {
    var b := Encode(c);
    var c1 := c / 0x40;
    var c2 := c1 / 0x40;
    assert Accumulate(b, 1) == if |b| == 1 then c else if |b| == 2 then c1 else if |b| == 3 then c2 else c2 / 0x40;
    hide Accumulate;
    if 2 <= |b| { AccumulateNext(b, 2); }
    if 3 <= |b| { AccumulateNext(b, 3); }
    if 4 <= |b| { AccumulateNext(b, 4); }
  }

  /** Not too small for `n` bytes, and within the Unicode range. */
  predicate Shortest(n: nat, c: int) {
    (n == 3 ==> 0x800 <= c) && (n == 4 ==> 0x1_0000 <= c <= 0x10_FFFF)
  }

  /** Appending six bits to a value and taking them off again. */
  lemma SixBits(q: int, r: int)
    requires 0 <= r < 0x40
    ensures (q * 0x40 + r) / 0x40 == q && (q * 0x40 + r) % 0x40 == r
  {
  }

  /** A longer sequence only appends six bits. */
  lemma AppendSix(b: seq<byte>, k: nat)
    requires 2 <= k <= |b| && Continuation(b[k - 1])
    ensures Accumulate(b, k) / 0x40 == Accumulate(b, k - 1)
    ensures Accumulate(b, k) % 0x40 == b[k - 1] as int - 0x80
  {
    AccumulateNext(b, k);
    SixBits(Accumulate(b, k - 1), b[k - 1] - 0x80);
  }

  predicate Shaped(b: seq<byte>, n: nat) {
    && |b| == n > 0
    && SequenceLength(b[0]) == n
    && forall k | 1 <= k < n :: Continuation(b[k])
  }

  lemma ThreeBytes(b: seq<byte>)
    requires Shaped(b, 3)
    ensures 0 <= Accumulate(b, 3) < 0x1_0000
    ensures Shortest(3, Accumulate(b, 3)) ==> Encode(Accumulate(b, 3)) == b
  {
    assert Accumulate(b, 1) == b[0] - 0xE0;
    hide Accumulate, SequenceLength;
    AppendSix(b, 2);
    AppendSix(b, 3);
  }

  lemma FourBytes(b: seq<byte>)
    requires Shaped(b, 4)
    ensures 0 <= Accumulate(b, 4)
    ensures Shortest(4, Accumulate(b, 4)) ==> Encode(Accumulate(b, 4)) == b
  {
    assert Accumulate(b, 1) == b[0] - 0xF0;
    hide Accumulate, SequenceLength;
    AppendSix(b, 2);
    AppendSix(b, 3);
    AppendSix(b, 4);
  }

  /** Conversely, bytes of the right shape are the encoding of their value,
      unless that value is too small for the length or too large. */
  lemma ShapeEncodes(b: seq<byte>)
    requires Shaped(b, |b|)
    ensures 0 <= Accumulate(b, |b|)
    ensures |b| <= 3 ==> Accumulate(b, |b|) < 0x1_0000
    ensures Shortest(|b|, Accumulate(b, |b|)) ==> Encode(Accumulate(b, |b|)) == b
  {
    if |b| == 2 { AppendSix(b, 2); }
    if |b| == 3 { ThreeBytes(b); }
    if |b| == 4 { FourBytes(b); }
  }

  lemma AccumulateSlice(b: seq<byte>, n: nat, k: nat)
    requires 1 <= k <= n <= |b|
    ensures Accumulate(b[..n], k) == Accumulate(b, k)
    decreases k
  {
    if k > 1 { AccumulateSlice(b, n, k - 1); }
  }

  /** A well-formed non-empty byte string starts with the encoding of a
      permitted code point and continues well-formed. */
  lemma FirstCodePoint(b: seq<byte>) returns (c: CodePoint)
    requires WellFormed(b) && b != []
    ensures Permitted(c)
    ensures Encode(c) <= b && WellFormed(b[|Encode(c)|..])
    ensures SequenceLength(b[0]) == |Encode(c)| <= |b|
    ensures forall k | 1 <= k < |Encode(c)| :: Continuation(b[k])
    ensures Accumulate(b, |Encode(c)|) == c
  {
    var cs: seq<CodePoint> :| Encodes(cs, b);
    c := cs[0];
    var n := |Encode(c)|;
    assert b[n..] == EncodeAll(cs[1..]);
    assert Encodes(cs[1..], b[n..]);
    assert b[..n] == Encode(c);
    EncodeShape(c);
    AccumulateSlice(b, n, n);
    forall k | 1 <= k < n ensures Continuation(b[k]) { assert b[k] == Encode(c)[k]; }
  }

  lemma WellFormedEmpty()
    ensures WellFormed([])
  {
    assert Encodes([], []);
  }

  /** Prefixing a permitted code point keeps well-formedness. */
  lemma WellFormedPrefix(c: CodePoint, b: seq<byte>)
    requires Permitted(c) && Encode(c) <= b
    requires WellFormed(b[|Encode(c)|..])
    ensures WellFormed(b)
  {
    var n := |Encode(c)|;
    var cs: seq<CodePoint> :| Encodes(cs, b[n..]);
    assert ([c] + cs)[1..] == cs;
    assert b == Encode(c) + b[n..];
    assert Encodes([c] + cs, b);
  }

  /** The first `n` bytes are a lead byte announcing `n` bytes followed by
      continuation bytes. */
  predicate Framed(b: seq<byte>, n: nat) {
    && 0 < n <= |b|
    && SequenceLength(b[0]) == n
    && forall k | 1 <= k < n :: Continuation(b[k])
  }

  /** The tests made on a reconstructed code point, in the validator's order. */
  function Refused(codelen: nat, codepoint: int): (refused: bool)
    requires codelen <= 4 && 0 <= codepoint && (codelen <= 3 ==> codepoint < 0x1_0000)
    ensures refused <==> !(Shortest(codelen, codepoint) && codepoint <= 0x10_FFFF && Permitted(codepoint))
  {
    if 0xD800 <= codepoint <= 0xDFFF then true
    else if codelen == 3 && codepoint < 0x0800 then true
    else if codelen == 4 && (codepoint < 0x1_0000 || codepoint > 0x10_FFFF) then true
    else if 0xFDD0 <= codepoint <= 0xFDEF then true
    else if codepoint % 0x1_0000 == 0xFFFE || codepoint % 0x1_0000 == 0xFFFF then true
    else codepoint <= 0x1F || 0x7F <= codepoint <= 0x9F
  }

  lemma UnframedIsMalformed(b: seq<byte>)
    requires b != [] && !Framed(b, SequenceLength(b[0]))
    ensures !WellFormed(b)
  {
    if WellFormed(b) {
      var c := FirstCodePoint(b);
    }
  }

  /** Deciding well-formedness one code point at a time. */
  lemma FramedStep(b: seq<byte>, n: nat)
    requires Framed(b, n)
    ensures 0 <= Accumulate(b, n) && (n <= 3 ==> Accumulate(b, n) < 0x1_0000)
    ensures WellFormed(b) <==> !Refused(n, Accumulate(b, n)) && WellFormed(b[n..])
  {
    AccumulateSlice(b, n, n);
    ShapeEncodes(b[..n]);
    if WellFormed(b) {
      var c := FirstCodePoint(b);
      EncodeShape(c);
    }
    if !Refused(n, Accumulate(b, n)) && WellFormed(b[n..]) {
      WellFormedPrefix(Accumulate(b, n), b);
    }
  }

  lemma NulIsMalformed(b: seq<byte>)
    requires b != [] && b[0] == 0
    ensures !WellFormed(b)
  {
    FramedStep(b, 1);
  }

  // ---------- what stands behind the length ----------

  /** A sequence that starts before `len` and ends behind it, at `m`. */
  ghost predicate Past(b: seq<byte>, len: nat, m: nat) {
    len <= m <= |b| && WellFormed(b[..m]) && forall k | len <= k < m :: Continuation(b[k])
  }

  /** What is accepted: well-formed bytes, or such whose last sequence is completed
      by two or three bytes from behind the given length. A single missing byte is
      noticed. */
  ghost predicate Accepted(b: seq<byte>, len: nat)
    requires len <= |b|
  {
    WellFormed(b[..len]) || Past(b, len, len + 2) || Past(b, len, len + 3)
  }

  /** With a NUL behind the length, only what is well-formed. */
  lemma TerminatedExact(b: seq<byte>, len: nat)
    requires len < |b| && b[len] == 0
    ensures Accepted(b, len) <==> WellFormed(b[..len])
  {
    hide WellFormed;
  }

  lemma UnframedIsRefused(b: seq<byte>, len: nat)
    requires 0 < len <= |b| && !Framed(b, SequenceLength(b[0]))
    ensures !Accepted(b, len)
  {
    hide WellFormed, SequenceLength;
    forall m | len <= m <= |b| ensures !WellFormed(b[..m]) { UnframedIsMalformed(b[..m]); }
  }

  /** No code point starts with a continuation byte. */
  lemma CutIsMalformed(b: seq<byte>, m: nat, n: nat)
    requires Framed(b, n) && n < m <= |b| && Continuation(b[n])
    ensures !WellFormed(b[..m])
  {
    hide WellFormed, Accumulate;
    FramedStep(b[..m], n);
    UnframedIsMalformed(b[..m][n..]);
  }

  lemma ShortIsMalformed(b: seq<byte>, m: nat)
    requires 0 < m <= |b| && SequenceLength(b[0]) > m
    ensures !WellFormed(b[..m])
  {
    hide WellFormed;
    UnframedIsMalformed(b[..m]);
  }

  lemma OneMissingIsRefused(b: seq<byte>, len: nat)
    requires 0 < len <= |b| && SequenceLength(b[0]) == len + 1
    ensures !Accepted(b, len)
  {
    if !Framed(b, len + 1) {
      UnframedIsRefused(b, len);
    } else {
      hide WellFormed, Framed, SequenceLength;
      ShortIsMalformed(b, len);
      if Past(b, len, len + 2) { CutIsMalformed(b, len + 2, len + 1); }
      if Past(b, len, len + 3) { CutIsMalformed(b, len + 3, len + 1); }
    }
  }

  lemma PrefixStep(b: seq<byte>, m: nat, n: nat)
    requires Framed(b, n) && n <= m <= |b|
    ensures 0 <= Accumulate(b, n) && (n <= 3 ==> Accumulate(b, n) < 0x1_0000)
    ensures WellFormed(b[..m]) <==> !Refused(n, Accumulate(b, n)) && WellFormed(b[n..][..m - n])
  {
    hide WellFormed, Refused, Accumulate, SequenceLength;
    AccumulateSlice(b, m, n);
    FramedStep(b[..m], n);
    assert b[..m][n..] == b[n..][..m - n];
  }

  /** One code point inside the length. */
  lemma AcceptedStep(b: seq<byte>, len: nat, n: nat)
    requires Framed(b, n) && n <= len <= |b|
    ensures 0 <= Accumulate(b, n) && (n <= 3 ==> Accumulate(b, n) < 0x1_0000)
    ensures Accepted(b, len) <==> !Refused(n, Accumulate(b, n)) && Accepted(b[n..], len - n)
  {
    hide WellFormed, Refused, Accumulate, Framed;
    PrefixStep(b, len, n);
    var c := b[n..];
    assert forall k | 0 <= k < |c| :: c[k] == b[n + k];
    assert forall k | n <= k < |b| :: b[k] == c[k - n];
    if len + 2 <= |b| { PrefixStep(b, len + 2, n); }
    if len + 3 <= |b| { PrefixStep(b, len + 3, n); }
  }

  /** One that ends two or three bytes behind it. */
  lemma PastStep(b: seq<byte>, len: nat, n: nat)
    requires Framed(b, n) && 0 < len && len + 2 <= n
    ensures n <= |b| && 0 <= Accumulate(b, n) && (n <= 3 ==> Accumulate(b, n) < 0x1_0000)
    ensures Accepted(b, len) <==> !Refused(n, Accumulate(b, n))
  {
    assert forall k | 1 <= k < n :: Continuation(b[k]);
    hide WellFormed, Refused, Accumulate;
    PrefixStep(b, n, n);
    WellFormedEmpty();
    assert b[n..][..0] == [];
    ShortIsMalformed(b, len);
    if n == len + 3 { ShortIsMalformed(b, len + 2); }
    if n == len + 2 && Past(b, len, len + 3) { CutIsMalformed(b, len + 3, n); }
  }

  /** No sequence that starts in the last two bytes announces more than one byte
      too many. */
  predicate Contained(b: seq<byte>) {
    forall i | 0 <= i < |b| :: i + SequenceLength(b[i]) <= |b| + 1
  }

  /** mosquitto_validate_utf8. A sequence that is cut off by the length is read on
      behind it, as long as there are continuation bytes: the buffer has to go that
      far. Every caller in the library passes a closing NUL. */
  method Validate(str: array?<byte>, len: int) returns (rc: int)
    requires str != null && 0 <= len <= 65536 ==>
               && len <= str.Length
               && (Contained(str[..len]) || len + 3 <= str.Length || exists k | len <= k < str.Length :: !Continuation(str[k]))
    ensures str == null || len < 0 || len > 65536 ==> rc == ERR_INVAL
    ensures str != null && 0 <= len <= 65536 ==>
              rc == (if Accepted(str[..], len) then SUCCESS else ERR_MALFORMED_UTF8)
  {
    hide WellFormed, Refused, Accumulate, Accepted;
    if str == null { return ERR_INVAL; }
    if len < 0 || len > 65536 { return ERR_INVAL; }
    var i := 0;
    assert str[0..] == str[..];
    while i < len
      invariant 0 <= i <= str.Length
      invariant if i <= len then Accepted(str[..], len) <==> Accepted(str[i..], len - i) else Accepted(str[..], len)
    {
      ghost var rest, start := str[i..], i;
      assert rest[0] == str[i];
      var codelen: int, codepoint: int;
      if str[i] == 0 {
        NulIsRefused(rest, len - i);
        return ERR_MALFORMED_UTF8;
      } else if str[i] <= 0x7F {
        codelen, codepoint := 1, str[i];
      } else if 0xC0 <= str[i] < 0xE0 {
        if str[i] == 0xC0 || str[i] == 0xC1 { UnframedIsRefused(rest, len - i); return ERR_MALFORMED_UTF8; }
        codelen, codepoint := 2, str[i] - 0xC0;
      } else if 0xE0 <= str[i] < 0xF0 {
        codelen, codepoint := 3, str[i] - 0xE0;
      } else if 0xF0 <= str[i] < 0xF8 {
        if str[i] > 0xF4 { UnframedIsRefused(rest, len - i); return ERR_MALFORMED_UTF8; }
        codelen, codepoint := 4, str[i] - 0xF0;
      } else {
        UnframedIsRefused(rest, len - i);
        return ERR_MALFORMED_UTF8;
      }

      AccumulateFirst(rest);
      assert codelen == SequenceLength(rest[0]);
      if i == len - codelen + 1 { OneMissingIsRefused(rest, len - i); return ERR_MALFORMED_UTF8; }
      assert str[..len][i] == str[i];
      for j := 0 to codelen - 1
        invariant i == start + j < str.Length
        invariant forall k | start < k <= i :: Continuation(str[k])
        invariant codepoint == Accumulate(rest, j + 1)
      {
        i := i + 1;
        assert i < str.Length && rest[j + 1] == str[i];
        if !(0x80 <= str[i] < 0xC0) { UnframedIsRefused(rest, len - start); return ERR_MALFORMED_UTF8; }
        AccumulateNext(rest, j + 2);
        codepoint := codepoint * 0x40 + (str[i] as int - 0x80);
      }
      assert Framed(rest, codelen);
      if start + codelen <= len { AcceptedStep(rest, len - start, codelen); } else { PastStep(rest, len - start, codelen); }
      if Refused(codelen, codepoint) { return ERR_MALFORMED_UTF8; }
      i := i + 1;
      assert str[i..] == rest[codelen..];
    }
    if i == len { NothingAccepted(str[len..]); }
    return SUCCESS;
  }

  lemma NulIsRefused(b: seq<byte>, len: nat)
    requires 0 < len <= |b| && b[0] == 0
    ensures !Accepted(b, len)
  {
    hide WellFormed;
    forall m | len <= m <= |b| ensures !WellFormed(b[..m]) { NulIsMalformed(b[..m]); }
  }

  lemma NothingAccepted(b: seq<byte>)
    ensures Accepted(b, 0)
  {
    WellFormedEmpty();
    assert b[..0] == [];
  }

  /** The first byte of the euro sign alone, followed in memory by the other two:
      not well-formed, and accepted. */
  lemma CutSequenceAccepted()
    ensures Accepted([0xE2, 0x82, 0xAC], 1) && !WellFormed([0xE2, 0x82, 0xAC][..1])
  {
    var b := [0xE2, 0x82, 0xAC];
    assert Accumulate(b, 1) == 2 && Accumulate(b, 2) == 130 && Accumulate(b, 3) == 0x20AC;
    PastStep(b, 1, 3);
    ShortIsMalformed(b, 1);
  }
}
