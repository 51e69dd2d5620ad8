/**
 * The resumable packet reader (packet__read).  A socket gives up bytes in
 * pieces of any size, or none for now; the reader keeps its place in in_packet
 * from one call to the next.
 */
module Inbox {
  import opened Mqtt
  import opened Packets
  import opened Framing

  /** The result of the n-th read on the socket: at most that many bytes if
      positive, otherwise one of these or, if less, some other error. */
  type ReadScript = nat -> int

  /** Whether there is a socket, and whether it is connected yet. */
  datatype Link = Closed | Connecting | Open

  /** The result of packet__read where there is nothing to read from. */
  function Unread(link: Link): int { if link == Closed then ERR_NO_CONN else SUCCESS }

  const END_OF_FILE := 0
  const WOULD_BLOCK := -1
  const CONNECTION_RESET := -2

  class Reader {
    const feed: seq<byte>
    const script: ReadScript
    const handler: Frame -> int
    var calls: nat
    var taken: nat
    var inPacket: Packet
    var handled: seq<Frame>
    ghost var tokens: seq<Token>
    // whether the reader was in a body when it last had to give up
    ghost var inBody: bool

    /** The weight of the next byte of the remaining length. */
    static function Weight(count: nat): nat
      requires count <= 4
    {
      if count == 0 then 1 else if count == 1 then 128 else if count == 2 then 16384
      else if count == 3 then 2097152 else 268435456
    }

    /** in_packet holds exactly what has been read of the current packet. */
    ghost predicate Holds(r: Reading)
      reads this`inPacket, inPacket, inPacket.payload
    {
      && r.Reading?
      && inPacket.command == r.command
      && inPacket.remainingMult == r.mult && inPacket.remainingLength == r.length
      && r.length < r.mult
      && r.count <= 4 && r.mult == Weight(r.count)
      && (r.lengthDone ==>
            && inPacket.remainingCount == r.count > 0 && r.length > 0
            && inPacket.payload.Length == r.length > |r.body|
            && inPacket.pos == |r.body| && inPacket.toProcess == r.length - |r.body|
            && inPacket.payload[..|r.body|] == r.body)
      && (!r.lengthDone ==>
            && inPacket.remainingCount == 0 - r.count as int && r.body == []
            && inPacket.pos == 0 && inPacket.toProcess == 0 && inPacket.payload.Length == 0)
      && (r.phase == WantLength ==> !r.lengthDone) && (r.phase == WantBody ==> r.lengthDone)
    }

    ghost function State(): Decoder
      reads this`tokens
    {
      FeedTokens(START, tokens)
    }

    /** Between two calls. */
    ghost predicate Valid()
      reads this, inPacket, inPacket.payload
    {
      && taken <= |feed| && BytesOf(tokens) == feed[..taken]
      && handled == State().handled
      && (State().r.Reading? ==> Holds(State().r) && State().r == Resume(State().r))
    }

    /** Within a call, standing at a given phase. */
    ghost predicate At(phase: Phase)
      reads this, inPacket, inPacket.payload
    {
      && taken <= |feed| && BytesOf(tokens) == feed[..taken]
      && handled == State().handled
      && Holds(State().r) && State().r.phase == phase
    }

    /** All of a packet is there and its handler is due. */
    ghost predicate Due()
      reads this, inPacket, inPacket.payload
    {
      && taken <= |feed| && BytesOf(tokens) == feed[..taken]
      && State() == Decoder(FRESH, handled + [Frame(inPacket.command, inPacket.payload[..])])
      && inPacket.toProcess == 0 && inPacket.remainingLength == inPacket.payload.Length
    }

    constructor (feed: seq<byte>, script: ReadScript, handler: Frame -> int)
      ensures Valid() && this.feed == feed && this.script == script && this.handler == handler
      ensures calls == taken == 0 && tokens == [] && handled == []
      ensures fresh(inPacket) && fresh(inPacket.payload)
    {
      this.feed, this.script, this.handler := feed, script, handler;
      calls, taken, handled, tokens, inBody := 0, 0, [], [], false;
      inPacket := new Packet(0, 0);
    }

    /** The last read brought nothing: refused, or nothing was left. */
    ghost predicate Refused()
      reads this`calls, this`taken
    {
      calls > 0 && (script(calls - 1) <= 0 || taken == |feed|)
    }

    /** What the last read came to, if it brought nothing. */
    ghost function Last(): int
      reads this`calls
    {
      if calls == 0 || script(calls - 1) > 0 then WOULD_BLOCK else script(calls - 1)
    }

    /** net__read. When the peer has sent nothing more, it blocks. */
    method NetRead(count: nat) returns (n: int, bytes: seq<byte>)
      requires count > 0 && taken <= |feed|
      modifies this`calls, this`taken
      ensures n > 0 ==> n <= count && taken == old(taken) + n <= |feed| && bytes == feed[old(taken)..taken]
      ensures n <= 0 ==> taken == old(taken) && Refused() && n == Last()
      ensures calls == old(calls) + 1
    {
      n := script(calls);
      calls := calls + 1;
      if n > count { n := count; }
      if n > |feed| - taken { n := |feed| - taken; }
      bytes := [];
      if n > 0 {
        bytes := feed[taken..taken + n];
        taken := taken + n;
      } else if script(calls - 1) > 0 {
        n := WOULD_BLOCK;
      }
    }

    /** A byte has been read. */
    ghost method Note(b: byte)
      requires 1 <= taken <= |feed| && feed[taken - 1] == b && BytesOf(tokens) == feed[..taken - 1]
      modifies this`tokens
      ensures tokens == old(tokens) + [Arrived(b)]
      ensures BytesOf(tokens) == feed[..taken] && State() == Feed(old(State()), b)
    {
      BytesOfConcat(tokens, [Arrived(b)]);
      FeedTokensConcat(START, tokens, [Arrived(b)]);
      assert BytesOf([Arrived(b)]) == [b];
      assert FeedTokens(State(), [Arrived(b)]) == Feed(State(), b);
      tokens := tokens + [Arrived(b)];
      assert feed[..taken] == feed[..taken - 1] + [b];
    }

    /** The reader gives up for now. */
    ghost method GiveUp(body: bool)
      requires taken <= |feed| && BytesOf(tokens) == feed[..taken] && State().r.Reading?
      modifies this`tokens, this`inBody
      ensures tokens == old(tokens) + [Blocked] && inBody == body
      ensures BytesOf(tokens) == feed[..taken] && State() == old(State()).(r := Resume(old(State()).r))
    {
      BytesOfConcat(tokens, [Blocked]);
      FeedTokensConcat(START, tokens, [Blocked]);
      assert BytesOf([Blocked]) == [];
      assert FeedTokens(State(), [Blocked]) == FeedToken(State(), Blocked);
      tokens := tokens + [Blocked];
      inBody := body;
    }

    /** What is returned after a read that brought nothing. End of file is looked
        for at the command and at the length; in the body the errno switch sees
        it as an error of its own. */
    static function Outcome(n: int, body: bool): (rc: int)
    {
      if n == END_OF_FILE then (if body then ERR_ERRNO else ERR_CONN_LOST)
      else if n == WOULD_BLOCK then SUCCESS
      else if n == CONNECTION_RESET then ERR_CONN_LOST
      else ERR_ERRNO
    }

    /** The result code of a call that ends without a packet. The reader gave up in a
        body if the length has been read, but for a command byte of 0: it may then
        have been looking for a command. */
    ghost predicate Explained(rc: int)
      reads this`calls, this`taken, this`tokens, this`inBody
    {
      if State().r.Broken? then rc == ERR_PROTOCOL
      else
        && Refused() && rc == Outcome(Last(), inBody)
        && (inBody ==> State().r.lengthDone) && (State().r.lengthDone && State().r.command != 0 ==> inBody)
    }

    /** An open connection with nothing to read is no error; a lost one is, and so is
        its end, which counts as lost anywhere but in a body. */
    static lemma OutcomeExact(n: int, body: bool)
      ensures Outcome(n, body) == 0 <==> n == WOULD_BLOCK
      ensures Outcome(n, body) == 7 <==> n == CONNECTION_RESET || (n == END_OF_FILE && !body)
      ensures Outcome(n, body) in {0, 7, 14}
      ensures Unread(Closed) == 4 && Unread(Connecting) == 0
    {
    }

    method ReadCommand() returns (rc: int, done: bool)
      requires At(WantCommand) && inPacket.command == 0
      modifies this`calls, this`taken, this`tokens, this`inBody, inPacket`command
      ensures done ==> Valid() && Explained(rc)
      ensures !done ==> rc == SUCCESS && (At(WantLength) || At(WantBody)) && handled == old(handled)
      ensures old(taken) <= taken && old(calls) < calls
    {
      hide FeedTokens, BytesOf;
      var n, bytes := NetRead(1);
      if n == 1 {
        Note(bytes[0]);
        inPacket.command := bytes[0];
        return SUCCESS, false;
      }
      GiveUp(false);
      return Outcome(n, false), true;
    }

    /** The whole remaining length has been read; the buffer is still missing. */
    ghost predicate Measured()
      reads this, inPacket, inPacket.payload
    {
      && taken <= |feed| && BytesOf(tokens) == feed[..taken]
      && -4 <= inPacket.remainingCount < 0
      && inPacket.pos == 0 && inPacket.toProcess == 0 && inPacket.payload.Length == 0
      && (inPacket.remainingLength == 0 ==> State() == Decoder(FRESH, handled + [Frame(inPacket.command, [])]))
      && (inPacket.remainingLength > 0 ==>
            State() == Decoder(Reading(inPacket.command, -inPacket.remainingCount, inPacket.remainingMult,
                                       inPacket.remainingLength, true, [], WantBody), handled))
      && inPacket.remainingLength < inPacket.remainingMult == Weight(-inPacket.remainingCount)
    }

    method ReadLengthByte() returns (rc: int, more: bool, done: bool)
      requires At(WantLength)
      modifies this`calls, this`taken, this`tokens, this`inBody
      modifies inPacket`remainingCount, inPacket`remainingLength, inPacket`remainingMult
      ensures done ==> Valid() && Explained(rc)
      ensures !done ==> rc == SUCCESS && taken > old(taken) && if more then At(WantLength) else Measured()
      ensures old(taken) <= taken && old(calls) < calls
    {
      hide FeedTokens, BytesOf, Feed;
      ghost var d := State();
      var n, bytes := NetRead(1);
      if n != 1 {
        GiveUp(false);
        return Outcome(n, false), false, true;
      }
      Note(bytes[0]);
      rc, more, done := TakeLength(bytes[0], d);
    }

    lemma LengthBelow(length: nat, mult: nat, low: nat)
      requires length < mult && low < 128
      ensures length + low * mult < mult * 128
    {
      assert low * mult <= 127 * mult;
    }

    /** One byte of the remaining length. */
    method TakeLength(b: byte, ghost d: Decoder) returns (rc: int, more: bool, done: bool)
      requires taken <= |feed| && BytesOf(tokens) == feed[..taken] && State() == Feed(d, b)
      requires handled == d.handled && Holds(d.r) && d.r.phase == WantLength
      modifies inPacket`remainingCount, inPacket`remainingLength, inPacket`remainingMult
      ensures done ==> Valid() && Explained(rc)
      ensures !done ==> rc == SUCCESS && if more then At(WantLength) else Measured()
    {
      hide FeedTokens, BytesOf, State, Refused, Last, Outcome;
      LengthBelow(d.r.length, d.r.mult, b % 128);
      inPacket.remainingCount := inPacket.remainingCount - 1;
      if inPacket.remainingCount < -4 { return ERR_PROTOCOL, false, true; }
      inPacket.remainingLength := inPacket.remainingLength + (b % 128) as int * inPacket.remainingMult;
      inPacket.remainingMult := inPacket.remainingMult * 128;
      return SUCCESS, b >= 128, false;
    }

    /** The remaining length, byte by byte; at its end the buffer is allocated. */
    method ReadLength() returns (rc: int, done: bool)
      requires At(WantLength)
      modifies this`calls, this`taken, this`tokens, this`inBody, inPacket
      ensures done ==> Valid() && Explained(rc)
      ensures !done ==> rc == SUCCESS && (At(WantBody) || Due())
      ensures inPacket.payload != old(inPacket.payload) ==> fresh(inPacket.payload)
      ensures old(taken) <= taken && old(calls) < calls
    {
      hide FeedTokens, BytesOf;
      var more := true;
      while more
        invariant inPacket.payload == old(inPacket.payload) && old(taken) <= taken
        invariant old(calls) <= calls && (!more ==> old(calls) < calls)
        invariant if more then At(WantLength) else Measured()
        decreases more, |feed| - taken
      {
        rc, more, done := ReadLengthByte();
        if done { return rc, done; }
      }
      inPacket.remainingCount := inPacket.remainingCount * -1;
      if inPacket.remainingLength > 0 {
        inPacket.payload := new byte[inPacket.remainingLength];
        inPacket.toProcess := inPacket.remainingLength;
        assert inPacket.payload[..0] == [];
      } else {
        assert inPacket.payload[..] == [];
      }
      return SUCCESS, false;
    }

    /** Several bytes have been read at once. */
    ghost method NoteAll(bs: seq<byte>)
      requires |bs| <= taken <= |feed| && feed[taken - |bs|..taken] == bs && BytesOf(tokens) == feed[..taken - |bs|]
      modifies this`tokens
      ensures BytesOf(tokens) == feed[..taken] && State() == FeedBytes(old(State()), bs)
    {
      StraightFeeds(State(), bs);
      BytesOfConcat(tokens, Straight(bs));
      FeedTokensConcat(START, tokens, Straight(bs));
      tokens := tokens + Straight(bs);
      assert feed[..taken] == feed[..taken - |bs|] + feed[taken - |bs|..taken];
    }

    /** The body, as much at a time as the socket has. */
    method ReadBody() returns (rc: int, done: bool)
      requires At(WantBody)
      modifies this`calls, this`taken, this`tokens, this`inBody, inPacket`pos, inPacket`toProcess, inPacket.payload
      ensures done ==> Valid() && Explained(rc)
      ensures !done ==> rc == SUCCESS && Due()
      ensures old(taken) <= taken && old(calls) < calls
    {
      hide FeedTokens, BytesOf;
      while inPacket.toProcess > 0
        invariant old(taken) <= taken && old(calls) <= calls && (inPacket.toProcess == 0 ==> old(calls) < calls)
        invariant if inPacket.toProcess > 0 then At(WantBody) else Due()
        decreases inPacket.toProcess
      {
        var n, bytes := NetRead(inPacket.toProcess);
        if n <= 0 {
          GiveUp(true);
          return Outcome(n, true), true;
        }
        TakeBody(bytes);
      }
      return SUCCESS, false;
    }

    method TakeBody(bytes: seq<byte>)
      requires 0 < |bytes| <= inPacket.toProcess && |bytes| <= taken <= |feed|
      requires feed[taken - |bytes|..taken] == bytes && BytesOf(tokens) == feed[..taken - |bytes|]
      requires handled == State().handled && Holds(State().r) && State().r.phase == WantBody
      modifies this`tokens, inPacket`pos, inPacket`toProcess, inPacket.payload
      ensures inPacket.toProcess == old(inPacket.toProcess) - |bytes|
      ensures if inPacket.toProcess > 0 then At(WantBody) else Due()
    {
      hide FeedTokens, BytesOf, FeedBytes;
      ghost var d := State();
      FeedBody(d, bytes);
      NoteAll(bytes);
      forall k | 0 <= k < |bytes| { inPacket.payload[inPacket.pos + k] := bytes[k]; }
      inPacket.toProcess := inPacket.toProcess - |bytes|;
      inPacket.pos := inPacket.pos + |bytes|;
      assert inPacket.payload[..inPacket.pos] == d.r.body + bytes;
      assert inPacket.pos == inPacket.payload.Length ==> inPacket.payload[..] == inPacket.payload[..inPacket.pos];
    }

    /** Everything packet__read does before it calls the handler: `due` if all of a
        packet is there. */
    method Fetch() returns (rc: int, due: bool)
      requires Valid() && State().r.Reading?
      modifies this`calls, this`taken, this`tokens, this`inBody, inPacket, inPacket.payload
      ensures due ==> rc == SUCCESS && Due() && inPacket.Readable() && inPacket.pos == 0
      ensures !due ==> Valid() && Explained(rc)
      ensures inPacket.payload != old(inPacket.payload) ==> fresh(inPacket.payload)
      ensures old(taken) <= taken && old(calls) < calls
    {
      hide FeedTokens, BytesOf;
      var done := false;
      if inPacket.command == 0 {
        rc, done := ReadCommand();
        if done { return rc, false; }
      }
      if inPacket.remainingCount <= 0 {
        rc, done := ReadLength();
        if done { return rc, false; }
      }
      if inPacket.toProcess > 0 {
        rc, done := ReadBody();
        if done { return rc, false; }
      }
      inPacket.pos := 0;
      return SUCCESS, true;
    }

    /** packet__cleanup, after the handler. */
    method Finish()
      requires Due()
      modifies this`handled, inPacket
      ensures Valid() && fresh(inPacket.payload) && State() == old(State())
      ensures handled == old(handled) + [old(Frame(inPacket.command, inPacket.payload[..]))]
    {
      handled := handled + [Frame(inPacket.command, inPacket.payload[..])];
      inPacket.command := 0;
      inPacket.remainingCount := 0;
      inPacket.remainingMult := 1;
      inPacket.remainingLength := 0;
      inPacket.payload := new byte[0];
      inPacket.toProcess := 0;
      inPacket.pos := 0;
    }

    /** packet__read. Each call adds to what has arrived; the reader's place and
        the packets handled are what the stream so far determines. A call ends
        with a packet handled, and the handler's result, unless the socket gives
        nothing or the length is at fault, or there is no connection to read from. */
    method PacketRead(link: Link) returns (rc: int)
      requires Valid() && State().r.Reading?
      modifies this, inPacket, inPacket.payload
      ensures Valid() && inPacket == old(inPacket)
      ensures inPacket.payload != old(inPacket.payload) ==> fresh(inPacket.payload)
      ensures old(taken) <= taken
      ensures link != Open ==> rc == Unread(link) && taken == old(taken) && tokens == old(tokens) && handled == old(handled)
      ensures link == Open ==> old(calls) < calls
      ensures link == Open ==>
                if |handled| > |old(handled)| then handled == old(handled) + [handled[|handled| - 1]] && rc == handler(handled[|handled| - 1])
                else handled == old(handled) && Explained(rc)
    {
      hide FeedTokens, BytesOf;
      if link != Open { return Unread(link); }
      var due;
      rc, due := Fetch();
      if due {
        rc := handler(Frame(inPacket.command, inPacket.payload[..]));
        Finish();
      }
    }
  }

  /** Any number of calls, any script of partial and failed reads: if the peer
      sent framable packets, what has been handled is the beginning of them, and
      all of them once all bytes have been taken. */
  lemma DeliveredInOrder(r: Reader, fs: seq<Frame>)
    requires r.Valid() && r.feed == EncodeFrames(fs)
    requires forall f | f in fs :: Framable(f)
    ensures r.handled <= fs
    ensures r.taken == |r.feed| ==> r.handled == fs
  {
    AnyPiecesSamePackets(fs, r.tokens);
  }
}
