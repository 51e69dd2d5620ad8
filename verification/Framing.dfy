/**
 * Control packets on a byte stream (sections 2.1.4 and 2.2 of MQTT Version
 * 5.0), and what the resumable reader makes of a stream that arrives in pieces.
 */
module Framing {
  import opened Mqtt
  import opened Wire

  /** A packet as its handler sees it. */
  datatype Frame = Frame(command: byte, body: seq<byte>)

  function EncodeFrame(f: Frame): seq<byte> { [f.command] + (EncodeVarint(|f.body|) + f.body) }

  function EncodeFrames(fs: seq<Frame>): seq<byte> {
    if fs == [] then [] else EncodeFrame(fs[0]) + EncodeFrames(fs[1..])
  }

  lemma {:induction false} EncodeFramesAppend(fs: seq<Frame>, f: Frame)
    ensures EncodeFrames(fs + [f]) == EncodeFrames(fs) + EncodeFrame(f)
  {
    if fs == [] {
      assert [f][1..] == [];
      assert [] + [f] == [f];
    } else {
      assert (fs + [f])[1..] == fs[1..] + [f];
      EncodeFramesAppend(fs[1..], f);
      ConcatAssoc(EncodeFrame(fs[0]), EncodeFrames(fs[1..]), EncodeFrame(f));
    }
  }

  /** The reader gets one byte, or has to give up for now. */
  datatype Token = Arrived(b: byte) | Blocked

  function BytesOf(ts: seq<Token>): seq<byte> {
    if ts == [] then [] else (if ts[0].Arrived? then [ts[0].b] else []) + BytesOf(ts[1..])
  }

  datatype Phase = WantCommand | WantLength | WantBody

  /** The packet being read: the fields of in_packet, and where packet__read
      stands. `count` bytes of the remaining length have been read. */
  datatype Reading =
    | Reading(command: byte, count: nat, mult: nat, length: nat, lengthDone: bool, body: seq<byte>, phase: Phase)
    | Broken

  const FRESH: Reading := Reading(0, 0, 1, 0, false, [], WantCommand)

  /** The reader and the packets handed to their handlers so far. */
  datatype Decoder = Decoder(r: Reading, handled: seq<Frame>)

  const START: Decoder := Decoder(FRESH, [])

  function Complete(d: Decoder): Decoder
    requires d.r.Reading?
  {
    Decoder(FRESH, d.handled + [Frame(d.r.command, d.r.body)])
  }

  /** packet__read on one byte. */
  function Feed(d: Decoder, b: byte): Decoder {
    if d.r.Broken? then d
    else
      match d.r.phase
      case WantCommand => d.(r := d.r.(command := b, phase := if d.r.lengthDone then WantBody else WantLength))
      case WantLength =>
        if d.r.count + 1 > 4 then d.(r := Broken)
        else
          var r := d.r.(count := d.r.count + 1, length := d.r.length + (b % 128) as int * d.r.mult, mult := d.r.mult * 128);
          if b >= 128 then d.(r := r)
          else
            var r' := r.(lengthDone := true, phase := WantBody);
            if r.length == 0 then Complete(d.(r := r')) else d.(r := r')
      case WantBody =>
        var r := d.r.(body := d.r.body + [b]);
        if |r.body| >= r.length then Complete(d.(r := r)) else d.(r := r)
  }

  /** Where the next call of packet__read takes up: command byte 0 reads as no
      command yet. */
  function Resume(r: Reading): Reading
    requires r.Reading?
  {
    r.(phase := if r.command == 0 then WantCommand else if r.lengthDone then WantBody else WantLength)
  }

  function FeedToken(d: Decoder, t: Token): Decoder {
    match t
    case Arrived(b) => Feed(d, b)
    case Blocked => if d.r.Broken? then d else d.(r := Resume(d.r))
  }

  function FeedTokens(d: Decoder, ts: seq<Token>): Decoder
    decreases |ts|
  {
    if ts == [] then d else FeedTokens(FeedToken(d, ts[0]), ts[1..])
  }

  function FeedBytes(d: Decoder, bs: seq<byte>): Decoder
    decreases |bs|
  {
    if bs == [] then d else FeedBytes(Feed(d, bs[0]), bs[1..])
  }

  lemma {:induction false} FeedTokensConcat(d: Decoder, a: seq<Token>, b: seq<Token>)
    ensures FeedTokens(d, a + b) == FeedTokens(FeedTokens(d, a), b)
    decreases |a|
  {
    if a == [] {
      assert a + b == b;
    } else {
      assert (a + b)[1..] == a[1..] + b;
      FeedTokensConcat(FeedToken(d, a[0]), a[1..], b);
    }
  }

  lemma {:induction false} FeedBytesConcat(d: Decoder, a: seq<byte>, b: seq<byte>)
    ensures FeedBytes(d, a + b) == FeedBytes(FeedBytes(d, a), b)
    decreases |a|
  {
    if a == [] {
      assert a + b == b;
    } else {
      assert (a + b)[1..] == a[1..] + b;
      FeedBytesConcat(Feed(d, a[0]), a[1..], b);
    }
  }

  lemma {:induction false} BytesOfConcat(a: seq<Token>, b: seq<Token>)
    ensures BytesOf(a + b) == BytesOf(a) + BytesOf(b)
  {
    if a == [] {
      assert a + b == b;
    } else {
      assert (a + b)[1..] == a[1..] + b;
      BytesOfConcat(a[1..], b);
      ConcatAssoc(if a[0].Arrived? then [a[0].b] else [], BytesOf(a[1..]), BytesOf(b));
    }
  }

  // ---------- pieces do not matter ----------

  /** Between packets or inside one; inside one the command is known. */
  predicate Settled(d: Decoder) {
    d.r.Reading? ==>
      && (d.r.phase == WantCommand ==> d.r == FRESH)
      && (d.r.phase != WantCommand ==> d.r.command != 0 && (d.r.lengthDone <==> d.r.phase == WantBody))
  }

  /** No packet of the stream starts with command byte 0. */
  predicate NoZeroCommand(d: Decoder, bs: seq<byte>)
    decreases |bs|
  {
    bs == [] || (!(d.r.Reading? && d.r.phase == WantCommand && bs[0] == 0) && NoZeroCommand(Feed(d, bs[0]), bs[1..]))
  }

  lemma FeedSettled(d: Decoder, b: byte)
    requires Settled(d) && !(d.r.Reading? && d.r.phase == WantCommand && b == 0)
    ensures Settled(Feed(d, b))
  {
  }

  /** Reading does not depend on how the bytes are cut into pieces, nor on how
      often the reader has to give up in between. */
  lemma {:induction false} PiecesIrrelevant(d: Decoder, ts: seq<Token>)
    requires Settled(d) && NoZeroCommand(d, BytesOf(ts))
    ensures FeedTokens(d, ts) == FeedBytes(d, BytesOf(ts))
    decreases |ts|
  {
    if ts != [] {
      var rest := BytesOf(ts[1..]);
      match ts[0]
      case Arrived(b) =>
        assert BytesOf(ts)[1..] == rest;
        FeedSettled(d, b);
        PiecesIrrelevant(Feed(d, b), ts[1..]);
      case Blocked =>
        assert BytesOf(ts) == rest;
        assert FeedToken(d, Blocked) == d;
        PiecesIrrelevant(d, ts[1..]);
    }
  }

  /** The bytes as they come when nothing ever blocks. */
  function Straight(bs: seq<byte>): seq<Token> {
    if bs == [] then [] else [Arrived(bs[0])] + Straight(bs[1..])
  }

  lemma {:induction false} StraightFeeds(d: Decoder, bs: seq<byte>)
    ensures BytesOf(Straight(bs)) == bs
    ensures FeedTokens(d, Straight(bs)) == FeedBytes(d, bs)
    decreases |bs|
  {
    if bs != [] {
      assert Straight(bs)[1..] == Straight(bs[1..]);
      StraightFeeds(Feed(d, bs[0]), bs[1..]);
    }
  }

  /** The first byte that is a zero command, if there is one. */
  lemma {:induction false} FirstZeroCommand(d: Decoder, bs: seq<byte>) returns (k: nat)
    requires Settled(d) && !NoZeroCommand(d, bs)
    ensures k < |bs| && bs[k] == 0
    ensures var e := FeedBytes(d, bs[..k]); e.r.Reading? && e.r == FRESH
    decreases |bs|
  {
    if d.r.Reading? && d.r.phase == WantCommand && bs[0] == 0 {
      k := 0;
    } else {
      FeedSettled(d, bs[0]);
      var j := FirstZeroCommand(Feed(d, bs[0]), bs[1..]);
      k := j + 1;
      assert bs[..k] == [bs[0]] + bs[1..][..j];
      assert bs[..k][1..] == bs[1..][..j];
    }
  }

  ghost predicate PiecesNeverMatter(bs: seq<byte>) {
    forall ts: seq<Token> :: BytesOf(ts) <= bs ==> FeedTokens(START, ts) == FeedBytes(START, BytesOf(ts))
  }

  /** Exactly the streams without a zero command byte are read the same way
      however they arrive. */
  lemma PiecesExact(bs: seq<byte>)
    ensures PiecesNeverMatter(bs) <==> NoZeroCommand(START, bs)
  {
    if NoZeroCommand(START, bs) {
      forall ts: seq<Token> | BytesOf(ts) <= bs ensures FeedTokens(START, ts) == FeedBytes(START, BytesOf(ts)) {
        NoZeroPrefix(START, BytesOf(ts), bs);
        PiecesIrrelevant(START, ts);
      }
    } else {
      var k := FirstZeroCommand(START, bs);
      var p := bs[..k + 1];
      var ts := Straight(p);
      StraightFeeds(START, p);
      assert p == bs[..k] + [0];
      FeedBytesConcat(START, bs[..k], [0]);
      var e := FeedBytes(START, bs[..k]);
      assert FeedBytes(e, [0]) == Feed(e, 0);
      FeedTokensConcat(START, ts, [Blocked]);
      assert FeedTokens(FeedTokens(START, ts), [Blocked]) == FeedToken(FeedTokens(START, ts), Blocked);
      BytesOfConcat(ts, [Blocked]);
      assert BytesOf([Blocked]) == [];
      assert BytesOf(ts + [Blocked]) == p <= bs;
    }
  }

  /** Such a stream: an empty packet with command byte 0 is handed on if both bytes
      come at once, and lost if the reader has to give up between them. */
  lemma ZeroCommandLost()
    ensures EncodeFrame(Frame(0, [])) == [0, 0]
    ensures FeedTokens(START, [Arrived(0), Arrived(0)]).handled == [Frame(0, [])]
    ensures FeedTokens(START, [Arrived(0), Blocked, Arrived(0)]).handled == []
  {
    assert EncodeVarint(0) == [0];
    assert [Arrived(0), Arrived(0)][1..] == [Arrived(0)] && [Arrived(0)][1..] == [];
    assert [Arrived(0), Blocked, Arrived(0)][1..] == [Blocked, Arrived(0)] && [Blocked, Arrived(0)][1..] == [Arrived(0)];
    var d := Feed(START, 0);
    assert FeedTokens(Feed(d, 0), []) == Decoder(FRESH, [Frame(0, [])]);
    assert FeedTokens(d, [Arrived(0)]) == FeedTokens(Feed(d, 0), []);
    var e := FeedToken(d, Blocked);
    assert FeedTokens(Feed(e, 0), []).handled == [];
    assert FeedTokens(e, [Arrived(0)]) == FeedTokens(Feed(e, 0), []);
    assert FeedTokens(d, [Blocked, Arrived(0)]) == FeedTokens(e, [Arrived(0)]);
  }

  lemma {:induction false} NoZeroPrefix(d: Decoder, a: seq<byte>, bs: seq<byte>)
    requires a <= bs && NoZeroCommand(d, bs)
    ensures NoZeroCommand(d, a)
    decreases |a|
  {
    if a != [] {
      assert a[1..] <= bs[1..];
      NoZeroPrefix(Feed(d, a[0]), a[1..], bs[1..]);
    }
  }

  // ---------- packets come out as they went in ----------

  /** What can be framed: a real command and a length in range. */
  predicate Framable(f: Frame) { f.command != 0 && |f.body| <= MAX_VARINT }

  /** The length bytes add up to the length, least significant first. */
  lemma {:induction false} FeedLength(d: Decoder, n: nat)
    requires d.r.Reading? && d.r.phase == WantLength && !d.r.lengthDone && d.r.body == []
    requires d.r.count + |EncodeVarint(n)| <= 4
    requires d.r.length + n * d.r.mult > 0
    ensures var e := FeedBytes(d, EncodeVarint(n));
            && e.handled == d.handled && e.r.Reading?
            && e.r.command == d.r.command && e.r.phase == WantBody && e.r.lengthDone && e.r.body == []
            && e.r.length == d.r.length + n * d.r.mult
    decreases n
  {
    var s := EncodeVarint(n);
    if n < 128 {
      assert s == [n] && s[1..] == [];
      assert FeedBytes(d, s) == Feed(d, n);
    } else {
      assert s[1..] == EncodeVarint(n / 128);
      var d' := Feed(d, 128 + n % 128);
      LengthStep(n, d.r.mult);
      assert d'.r.length + n / 128 * d'.r.mult == d.r.length + n * d.r.mult;
      FeedLength(d', n / 128);
    }
  }

  lemma LengthStep(n: nat, mult: nat)
    ensures n % 128 * mult + n / 128 * (mult * 128) == n * mult
  {
    assert n == n % 128 + n / 128 * 128;
    assert (n / 128 * 128) * mult == n / 128 * (mult * 128);
  }

  lemma {:induction false} FeedBody(d: Decoder, bs: seq<byte>)
    requires d.r.Reading? && d.r.phase == WantBody && |d.r.body| + |bs| <= d.r.length
    ensures var e := FeedBytes(d, bs);
            if |d.r.body| + |bs| == d.r.length && bs != [] then e == Complete(d.(r := d.r.(body := d.r.body + bs)))
            else e == d.(r := d.r.(body := d.r.body + bs))
    decreases |bs|
  {
    if bs == [] {
      assert d.r.body + bs == d.r.body;
    } else {
      var d' := Feed(d, bs[0]);
      assert (d.r.body + [bs[0]]) + bs[1..] == d.r.body + bs;
      if |bs| > 1 {
        FeedBody(d', bs[1..]);
      } else {
        assert bs[1..] == [] && d.r.body + [bs[0]] == d.r.body + bs;
      }
    }
  }

  /** One packet: read completely, handed on, and nothing left over. */
  lemma FeedFrame(handled: seq<Frame>, f: Frame)
    requires Framable(f)
    ensures FeedBytes(Decoder(FRESH, handled), EncodeFrame(f)) == Decoder(FRESH, handled + [f])
  {
    var d := Decoder(FRESH, handled);
    var d1 := Feed(d, f.command);
    var n := |f.body|;
    assert EncodeFrame(f)[1..] == EncodeVarint(n) + f.body;
    FeedBytesConcat(d1, EncodeVarint(n), f.body);
    EncodeVarintLength(n);
    if n == 0 {
      assert f.body == [] && EncodeVarint(0) == [0] && [0][1..] == [];
      assert FeedBytes(d1, [0]) == Feed(d1, 0);
    } else {
      FeedLength(d1, n);
      var d2 := FeedBytes(d1, EncodeVarint(n));
      FeedBody(d2, f.body);
      assert [] + f.body == f.body;
    }
  }

  /** A remaining length has four bytes at most: with a fifth the packet is refused,
      and not before. */
  lemma FifthLengthByte(handled: seq<Frame>, command: byte, b: seq<byte>)
    requires |b| == 5 && b[0] >= 128 && b[1] >= 128 && b[2] >= 128 && b[3] >= 128
    ensures FeedBytes(Decoder(FRESH, handled), [command] + b).r.Broken?
    ensures FeedBytes(Decoder(FRESH, handled), [command] + b[..4]).r.Reading?
  {
    var d := Feed(Decoder(FRESH, handled), command);
    var s, t := [command] + b, [command] + b[..4];
    assert s[1..] == b && t[1..] == b[..4];
    FeedHigh(d, b[..4]);
    assert b == b[..4] + [b[4]];
    FeedBytesConcat(d, b[..4], [b[4]]);
    assert FeedBytes(FeedBytes(d, b[..4]), [b[4]]) == Feed(FeedBytes(d, b[..4]), b[4]);
  }

  /** Each byte with its high bit set asks for another. */
  lemma {:induction false} FeedHigh(d: Decoder, b: seq<byte>)
    requires d.r.Reading? && d.r.phase == WantLength && d.r.count + |b| <= 4
    requires forall i | 0 <= i < |b| :: b[i] >= 128
    ensures var e := FeedBytes(d, b); e.r.Reading? && e.r.phase == WantLength && e.r.count == d.r.count + |b|
    decreases |b|
  {
    if b != [] { FeedHigh(Feed(d, b[0]), b[1..]); }
  }

  /** A stream of packets is read as the same packets in the same order. */
  lemma {:induction false} FeedFrames(handled: seq<Frame>, fs: seq<Frame>)
    requires forall f | f in fs :: Framable(f)
    ensures FeedBytes(Decoder(FRESH, handled), EncodeFrames(fs)) == Decoder(FRESH, handled + fs)
    decreases |fs|
  {
    if fs == [] {
      assert handled + fs == handled;
    } else {
      FeedFrame(handled, fs[0]);
      FeedBytesConcat(Decoder(FRESH, handled), EncodeFrame(fs[0]), EncodeFrames(fs[1..]));
      FeedFrames(handled + [fs[0]], fs[1..]);
      assert (handled + [fs[0]]) + fs[1..] == handled + fs;
    }
  }

  lemma {:induction false} HandledGrows(d: Decoder, bs: seq<byte>)
    ensures d.handled <= FeedBytes(d, bs).handled
    decreases |bs|
  {
    if bs != [] { HandledGrows(Feed(d, bs[0]), bs[1..]); }
  }

  lemma {:induction false} FramesNoZero(handled: seq<Frame>, fs: seq<Frame>)
    requires forall f | f in fs :: Framable(f)
    ensures NoZeroCommand(Decoder(FRESH, handled), EncodeFrames(fs))
    decreases |fs|
  {
    if fs != [] {
      var d := Decoder(FRESH, handled);
      FrameNoZero(handled, fs[0]);
      FeedFrame(handled, fs[0]);
      FramesNoZero(handled + [fs[0]], fs[1..]);
      NoZeroConcat(d, EncodeFrame(fs[0]), EncodeFrames(fs[1..]));
    }
  }

  lemma {:induction false} NoZeroConcat(d: Decoder, a: seq<byte>, b: seq<byte>)
    ensures NoZeroCommand(d, a + b) <==> NoZeroCommand(d, a) && NoZeroCommand(FeedBytes(d, a), b)
    decreases |a|
  {
    if a == [] {
      assert a + b == b;
    } else {
      assert (a + b)[1..] == a[1..] + b;
      NoZeroConcat(Feed(d, a[0]), a[1..], b);
    }
  }

  lemma {:induction false} BrokenNoZero(d: Decoder, bs: seq<byte>)
    requires d.r.Broken?
    ensures NoZeroCommand(d, bs)
    decreases |bs|
  {
    if bs != [] { BrokenNoZero(d, bs[1..]); }
  }

  lemma {:induction false} FrameNoZero(handled: seq<Frame>, f: Frame)
    requires Framable(f)
    ensures NoZeroCommand(Decoder(FRESH, handled), EncodeFrame(f))
  {
    var d1 := Feed(Decoder(FRESH, handled), f.command);
    assert EncodeFrame(f)[1..] == EncodeVarint(|f.body|) + f.body;
    EncodeVarintLength(|f.body|);
    LengthNoZero(d1, |f.body|);
    NoZeroConcat(d1, EncodeVarint(|f.body|), f.body);
    if f.body != [] {
      FeedLength(d1, |f.body|);
      BodyNoZero(FeedBytes(d1, EncodeVarint(|f.body|)), f.body);
    }
  }

  lemma {:induction false} LengthNoZero(d: Decoder, n: nat)
    requires d.r.Reading? && d.r.phase == WantLength
    ensures NoZeroCommand(d, EncodeVarint(n))
    decreases n
  {
    var s := EncodeVarint(n);
    if n < 128 {
      assert s[1..] == [];
    } else {
      assert s[1..] == EncodeVarint(n / 128);
      var d' := Feed(d, s[0]);
      if d'.r.Reading? { LengthNoZero(d', n / 128); } else { BrokenNoZero(d', s[1..]); }
    }
  }

  lemma {:induction false} BodyNoZero(d: Decoder, bs: seq<byte>)
    requires d.r.Reading? && d.r.phase == WantBody && |d.r.body| + |bs| <= d.r.length
    ensures NoZeroCommand(d, bs)
    decreases |bs|
  {
    if |bs| > 1 {
      BodyNoZero(Feed(d, bs[0]), bs[1..]);
    } else if |bs| == 1 {
      assert bs[1..] == [];
    }
  }

  /** Whatever part of a stream of packets has arrived, in whatever pieces, what
      has been handled is the beginning of what was sent; all of it when all has
      arrived. */
  lemma AnyPiecesSamePackets(fs: seq<Frame>, ts: seq<Token>)
    requires forall f | f in fs :: Framable(f)
    requires BytesOf(ts) <= EncodeFrames(fs)
    ensures FeedTokens(START, ts).handled <= fs
    ensures BytesOf(ts) == EncodeFrames(fs) ==> FeedTokens(START, ts) == Decoder(FRESH, fs)
  {
    var got, all := BytesOf(ts), EncodeFrames(fs);
    FramesNoZero([], fs);
    NoZeroPrefix(START, got, all);
    PiecesIrrelevant(START, ts);
    FeedFrames([], fs);
    assert [] + fs == fs;
    assert all == got + all[|got|..];
    FeedBytesConcat(START, got, all[|got|..]);
    HandledGrows(FeedBytes(START, got), all[|got|..]);
  }
}
