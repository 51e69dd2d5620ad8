/**
 * The packet writer (packet__queue, packet__write): a linked queue of packets
 * drained into a socket that may take any part of what it is offered.
 */
module Outbox {
  import opened Mqtt
  import opened Wire
  import opened Packets
  import opened Framing
  import opened Inbox

  /** The result of the n-th write on the socket: at most that many bytes if
      positive, otherwise as for reading. */
  type WriteScript = nat -> int

  /** What is returned after a write that brought nothing. */
  function WriteOutcome(n: int): int {
    if n == WOULD_BLOCK then SUCCESS else if n == CONNECTION_RESET then ERR_CONN_LOST else ERR_ERRNO
  }

  /** Whatever else a write can come to is an error. */
  lemma WriteOutcomeExact(n: int)
    ensures WriteOutcome(n) == 0 <==> n == WOULD_BLOCK
    ensures WriteOutcome(n) == 7 <==> n == CONNECTION_RESET
    ensures WriteOutcome(n) in {0, 7, 14}
  {
  }

  /** A QoS 0 PUBLISH, with or without its retain and duplicate flags. */
  predicate QosZero(command: byte) { command in {0x30, 0x31, 0x38, 0x39} }

  /** The identifiers under which such packets were queued. */
  function QosZeroMids(fs: seq<Frame>, mids: seq<uint16>): seq<uint16>
    requires |mids| == |fs|
  {
    if fs == [] then []
    else QosZeroMids(fs[..|fs| - 1], mids[..|fs| - 1]) + if QosZero(fs[|fs| - 1].command) then [mids[|fs| - 1]] else []
  }

  /** One packet more. */
  lemma OneMore(fs: seq<Frame>, mids: seq<uint16>, n: nat)
    requires n < |fs| == |mids|
    ensures EncodeFrames(fs[..n + 1]) == EncodeFrames(fs[..n]) + EncodeFrame(fs[n])
    ensures QosZeroMids(fs[..n + 1], mids[..n + 1]) == QosZeroMids(fs[..n], mids[..n]) + if QosZero(fs[n].command) then [mids[n]] else []
  {
    hide EncodeFrame, EncodeFrames;
    EncodeFramesAppend(fs[..n], fs[n]);
    assert fs[..n + 1] == fs[..n] + [fs[n]] && fs[..n + 1][..n] == fs[..n] && mids[..n + 1][..n] == mids[..n];
  }

  class Writer {
    const script: WriteScript
    var calls: nat
    var connected: bool
    var connectPending: bool
    var current: Packet?
    var outPacket: Packet?
    var outPacketLast: Packet?
    // what the socket has taken, and the calls of on_publish
    var wire: seq<byte>
    var reported: seq<uint16>
    // the packets behind the head pointer; all that was ever queued, with its
    // identifiers, and how many of these packets have been written whole
    ghost var queue: seq<Packet>
    ghost var frames: seq<Frame>
    ghost var mids: seq<uint16>
    ghost var done: nat

    constructor (script: WriteScript)
      ensures Valid() && this.script == script && connected && !connectPending
      ensures wire == [] && reported == [] && frames == [] && queue == [] && current == null && calls == 0
    {
      this.script := script;
      calls, connected, connectPending := 0, true, false;
      current, outPacket, outPacketLast := null, null, null;
      wire, reported, queue, frames, mids, done := [], [], [], [], [], 0;
    }

    /** The shape of the queue. */
    ghost predicate Linked()
      reads this`queue, this`outPacket, this`outPacketLast, queue
    {
      && outPacket == (if queue == [] then null else queue[0])
      && outPacketLast == (if queue == [] then null else queue[|queue| - 1])
      && (forall i, j | 0 <= i < j < |queue| :: queue[i] != queue[j])
      && (forall i {:trigger queue[i].next} | 0 <= i < |queue| :: queue[i].next == if i + 1 < |queue| then queue[i + 1] else null)
    }

    /** A packet that holds a frame. */
    static ghost predicate Carries(p: Packet, f: Frame, mid: uint16)
      reads p, p.payload
    {
      && p.command == f.command && p.mid == mid && p.payload[..] == EncodeFrame(f)
      && p.pos + p.toProcess == p.payload.Length
    }

    /** How many packets there are. */
    ghost predicate Counted(n: nat)
      reads this`frames, this`mids, this`current, this`queue
    {
      |mids| == |frames| == n + (if current == null then 0 else 1) + |queue|
    }

    /** The queue holds the packets that were queued last, untouched. */
    ghost predicate Waiting()
      reads this`frames, this`mids, this`queue, queue, set p | p in queue :: p.payload
    {
      && |queue| <= |frames| == |mids|
      && forall i {:trigger queue[i]} | 0 <= i < |queue| ::
           queue[i].pos == 0 && Carries(queue[i], frames[|frames| - |queue| + i], mids[|frames| - |queue| + i])
    }

    /** The one before them is being written. */
    ghost predicate Writing(n: nat)
      reads this`frames, this`mids, this`current, current, if current == null then {} else {current.payload}
    {
      current != null ==> n < |frames| == |mids| && Carries(current, frames[n], mids[n])
    }

    /** No byte is lost, doubled or reordered: what the socket has taken is the
        packets before that, whole, and that one up to its cursor. */
    ghost predicate Written(n: nat)
      reads this`frames, this`wire, this`current, current, if current == null then {} else {current.payload}
    {
      && n <= |frames|
      && (current != null ==> current.pos <= current.payload.Length)
      && wire == EncodeFrames(frames[..n]) + if current == null then [] else current.payload[..current.pos]
    }

    /** on_publish has been called for each QoS 0 PUBLISH written whole, in order. */
    ghost predicate Reported(n: nat)
      reads this`frames, this`mids, this`reported
    {
      n <= |frames| == |mids| && reported == QosZeroMids(frames[..n], mids[..n])
    }

    /** What was queued is a sequence of whole packets. */
    ghost predicate Recorded()
      reads this`frames
    {
      forall f | f in frames :: Framable(f)
    }

    ghost predicate Valid()
      reads this, queue, set p | p in queue :: p.payload, current, if current == null then {} else {current.payload}
    {
      && Linked() && current !in queue && Recorded()
      && Counted(done) && Waiting() && Writing(done) && Written(done) && Reported(done)
    }

    /** The packet that was being written, if it is still the same one. */
    static ghost function Opt(p: Packet?): set<Packet> { if p == null then {} else {p} }

    /** The linking done by packet__queue. */
    method Link(packet: Packet)
      requires Linked() && packet !in queue
      modifies this`queue, this`outPacket, this`outPacketLast, packet`next, queue
      ensures Linked() && queue == old(queue) + [packet]
      ensures forall p | p in queue ::
                && p.pos == old(p.pos) && p.toProcess == old(p.toProcess) && p.payload == old(p.payload)
                && p.command == old(p.command) && p.mid == old(p.mid)
    {
      packet.next := null;
      if outPacket != null {
        outPacketLast.next := packet;
      } else {
        outPacket := packet;
      }
      outPacketLast := packet;
      queue := queue + [packet];
    }

    /** The unlinking done by packet__write. */
    method Unlink()
      requires Linked() && outPacket != null
      modifies this`queue, this`outPacket, this`outPacketLast
      ensures Linked() && queue == old(queue)[1..]
    {
      outPacket := outPacket.next;
      if outPacket == null {
        outPacketLast := null;
      }
      queue := queue[1..];
    }

    /** A packet ready to be queued. */
    static ghost predicate Ready(packet: Packet, f: Frame)
      reads packet, packet.payload
    {
      && packet.packetLength == packet.payload.Length && packet.command == f.command
      && packet.payload[..] == EncodeFrame(f) && Framable(f)
    }

    /** The first half of packet__queue: the whole packet at the tail. */
    method Enqueue(packet: Packet, ghost f: Frame)
      requires Valid() && packet !in queue && packet != current && Ready(packet, f)
      modifies this`queue, this`outPacket, this`outPacketLast, this`frames, this`mids
      modifies packet`next, packet`pos, packet`toProcess, queue
      ensures Valid()
      ensures frames == old(frames) + [f] && mids == old(mids) + [packet.mid] && queue == old(queue) + [packet]
    {
      hide Linked, EncodeFrame, EncodeFrames, Framable, QosZeroMids, Written, Reported;
      packet.pos := 0;
      packet.toProcess := packet.packetLength;
      Link(packet);
      assert forall i | 0 <= i < |queue| - 1 :: queue[i] == old(queue)[i];
      Record(packet, f);
    }

    /** The ghost side of it. */
    ghost method Record(packet: Packet, f: Frame)
      requires Linked() && current !in queue && Recorded() && Framable(f)
      requires queue != [] && queue[|queue| - 1] == packet && packet.pos == 0 && Carries(packet, f, packet.mid)
      requires |mids| == |frames| == done + (if current == null then 0 else 1) + |queue| - 1
      requires forall i | 0 <= i < |queue| - 1 ::
                 queue[i].pos == 0 && Carries(queue[i], frames[|frames| + 1 - |queue| + i], mids[|frames| + 1 - |queue| + i])
      requires Writing(done) && Written(done) && Reported(done)
      modifies this`frames, this`mids
      ensures Valid() && frames == old(frames) + [f] && mids == old(mids) + [packet.mid]
    {
      hide Linked, EncodeFrame, EncodeFrames, Framable, QosZeroMids, Carries;
      frames := frames + [f];
      mids := mids + [packet.mid];
      assert frames[..done] == old(frames)[..done] && mids[..done] == old(mids)[..done];
    }

    /** How the state after a call of packet__write came about: packets written
        whole, the last of them a DISCONNECT exactly if the connection was ended,
        and no other. */
    twostate predicate Progressed()
      reads this`frames, this`done, this`connected, this`wire
    {
      && old(done) <= done <= |frames| && old(wire) <= wire
      && (connected <==> old(connected) && !(done > old(done) && frames[done - 1].command / 16 == 14))
      && (forall i | old(done) <= i < done - 1 :: frames[i].command / 16 != 14)
    }

    /** packet__queue: append at the tail, then write unless a callback or a
        thread will. */
    method Queue(packet: Packet, direct: bool, ghost f: Frame) returns (rc: int)
      requires Valid() && packet !in queue && packet != current && Ready(packet, f)
      modifies this, queue, packet, Opt(current)
      ensures Valid()
      ensures frames == old(frames) + [f] && mids == old(mids) + [old(packet.mid)]
      ensures Progressed()
      ensures if direct then Returned(rc)
              else rc == SUCCESS && wire == old(wire) && done == old(done) && connected == old(connected)
      ensures connectPending == old(connectPending)
    {
      hide Valid, EncodeFrame, Framable;
      Enqueue(packet, f);
      if direct {
        rc := Write();
      } else {
        rc := SUCCESS;
        DoneBounded();
      }
    }

    lemma DoneBounded()
      requires Valid()
      ensures done <= |frames|
    {
    }

    lemma HeadOfQueue()
      requires Linked()
      ensures outPacket == null <==> queue == []
    {
    }

    /** Take the head of the queue for writing; the packet before it is done. */
    method Advance(ghost n: nat)
      requires Linked() && Recorded() && Counted(n) && Waiting() && Reported(n + if current == null then 0 else 1)
      requires wire == EncodeFrames(frames[..n + if current == null then 0 else 1])
      modifies this`current, this`outPacket, this`outPacketLast, this`queue, this`done
      ensures Valid() && done == n + if old(current) == null then 0 else 1
      ensures if old(queue) == [] then queue == [] && current == null
              else queue == old(queue)[1..] && current == old(queue)[0]
    {
      hide Recorded, EncodeFrames, EncodeFrame, QosZeroMids, Carries, Linked, Reported, Waiting;
      HeadOfQueue();
      done := n + if current == null then 0 else 1;
      if outPacket != null {
        TakeHead();
        FreshCursor(current.payload);
        CarriesCursor(current, frames[done], mids[done]);
      } else {
        current := null;
        EmptyQueue();
      }
    }

    /** The head of the queue becomes the packet to be written. */
    method TakeHead()
      requires Linked() && Waiting() && outPacket != null
      modifies this`current, this`outPacket, this`outPacketLast, this`queue
      ensures Linked() && Waiting() && current !in queue
      ensures old(queue) != [] && queue == old(queue)[1..] && current == old(queue)[0]
      ensures current.pos == 0 && Carries(current, frames[|frames| - |queue| - 1], mids[|frames| - |queue| - 1])
    {
      hide Carries, Linked, EncodeFrame;
      ghost var q := queue;
      HeadOfQueue();
      HeadWaiting();
      current := outPacket;
      Unlink();
      WaitingTail(q);
    }

    lemma EmptyQueue()
      requires queue == [] && |frames| == |mids|
      ensures Waiting()
    {
    }

    static lemma FreshCursor(payload: array<byte>)
      ensures payload[..0] == []
    {
    }

    static lemma CarriesCursor(p: Packet, f: Frame, mid: uint16)
      requires Carries(p, f, mid)
      ensures p.pos + p.toProcess == p.payload.Length
    {
    }

    lemma HeadWaiting()
      requires Linked() && Waiting() && queue != []
      ensures outPacket == queue[0]
      ensures queue[0] !in queue[1..] && queue[0].pos == 0 && Carries(queue[0], frames[|frames| - |queue|], mids[|frames| - |queue|])
    {
      hide Carries;
      HeadApart();
    }

    /** What waits behind the first packet. */
    lemma WaitingTail(q: seq<Packet>)
      requires 0 < |q| <= |frames| == |mids| && queue == q[1..]
      requires forall i {:trigger q[i]} | 0 <= i < |q| ::
                 q[i].pos == 0 && Carries(q[i], frames[|frames| - |q| + i], mids[|frames| - |q| + i])
      ensures Waiting()
    {
      hide Carries;
      assert forall i | 0 <= i < |queue| :: queue[i] == q[i + 1];
    }

    lemma HeadApart()
      requires Linked() && queue != []
      ensures queue[0] !in queue[1..]
    {
    }

    /** net__write. */
    method NetWrite(packet: Packet) returns (n: int)
      requires packet.pos + packet.toProcess == packet.payload.Length && packet.toProcess > 0
      modifies this`calls, this`wire
      ensures n <= packet.toProcess
      ensures calls == old(calls) + 1 && (n <= 0 <==> script(old(calls)) <= 0) && (n <= 0 ==> n == script(old(calls)))
      ensures wire == old(wire) + (if n > 0 then packet.payload[packet.pos..packet.pos + n] else [])
    {
      n := script(calls);
      calls := calls + 1;
      if n > packet.toProcess { n := packet.toProcess; }
      if n > 0 { wire := wire + packet.payload[packet.pos..packet.pos + n]; }
    }

    /** The last write brought nothing. */
    ghost predicate Refused()
      reads this`calls
    {
      calls > 0 && script(calls - 1) <= 0
    }

    /** One write of the inner loop of packet__write. */
    method WritePart(packet: Packet) returns (n: int)
      requires Valid() && current == packet && packet.toProcess > 0
      modifies this`calls, this`wire, packet`pos, packet`toProcess
      ensures Valid() && old(wire) <= wire
      ensures n <= 0 ==> Refused() && n == script(calls - 1)
      ensures n > 0 ==> packet.toProcess == old(packet.toProcess) - n
      ensures old(calls) < calls
    {
      hide Linked, Recorded, Waiting, EncodeFrames, EncodeFrame, QosZeroMids;
      n := NetWrite(packet);
      if n > 0 {
        PartOut(EncodeFrames(frames[..done]), packet.payload, packet.pos, n);
        MoveCursor(packet, n);
      }
    }

    /** The part that the socket took is behind the cursor now. */
    method MoveCursor(packet: Packet, n: nat)
      requires Linked() && Recorded() && current == packet && packet !in queue
      requires Counted(done) && Waiting() && Writing(done) && Reported(done) && n <= packet.toProcess
      requires wire == EncodeFrames(frames[..done]) + packet.payload[..packet.pos + n]
      modifies packet`pos, packet`toProcess
      ensures Valid()
      ensures packet.toProcess == old(packet.toProcess) - n
    {
      hide Linked, Recorded, EncodeFrames, EncodeFrame, QosZeroMids;
      packet.toProcess := packet.toProcess - n;
      packet.pos := packet.pos + n;
    }

    static lemma PartOut(w: seq<byte>, payload: array<byte>, pos: nat, n: nat)
      requires pos + n <= payload.Length
      ensures (w + payload[..pos]) + payload[pos..pos + n] == w + payload[..pos + n]
    {
      assert payload[..pos + n] == payload[..pos] + payload[pos..pos + n];
    }

    /** The inner loop of packet__write: as much of one packet as the socket
        takes; `out` when all of it is. */
    method Drain(packet: Packet) returns (rc: int, out: bool)
      requires Valid() && current == packet
      modifies this`calls, this`wire, packet`pos, packet`toProcess
      ensures Valid() && old(wire) <= wire
      ensures out ==> rc == SUCCESS && packet.toProcess == 0
      ensures !out ==> old(calls) < calls && Refused() && rc == WriteOutcome(script(calls - 1))
      ensures old(calls) <= calls
    {
      hide Valid;
      while packet.toProcess > 0
        invariant Valid() && old(wire) <= wire && old(calls) <= calls
        decreases packet.toProcess
      {
        var n := WritePart(packet);
        if n <= 0 { return WriteOutcome(n), false; }
      }
      return SUCCESS, true;
    }

    /** How packet__write ends: without a connection, or while one is being made,
        or behind a DISCONNECT, or with everything out, or with what the refusal of
        its last write comes to. */
    twostate predicate Returned(rc: int)
      reads this`calls, this`connected, this`connectPending, this`wire, this`frames
    {
      if !old(connected) then rc == ERR_NO_CONN
      else if connectPending || !connected then rc == SUCCESS
      else (wire == EncodeFrames(frames) && rc == SUCCESS) || (old(calls) < calls && Refused() && rc == WriteOutcome(script(calls - 1)))
    }

    /** What follows a packet that has been written whole: the report of a QoS 0
        PUBLISH, the end of the connection behind a DISCONNECT, and the next
        packet. */
    method Conclude(packet: Packet)
      requires Valid() && current == packet && packet.toProcess == 0
      modifies this`current, this`outPacket, this`outPacketLast, this`queue, this`done, this`connected, this`reported
      ensures Valid() && done == old(done) + 1
      ensures connected == (old(connected) && frames[old(done)].command / 16 != 14)
      ensures if old(queue) == [] then queue == [] && current == null
              else queue == old(queue)[1..] && current == old(queue)[0]
    {
      hide Linked, Recorded, Waiting, EncodeFrames, EncodeFrame, QosZeroMids;
      OneMore(frames, mids, done);
      assert packet.payload[..packet.pos] == packet.payload[..];
      if packet.command / 16 == CMD_PUBLISH / 16 && packet.command / 2 % 4 == 0 {
        reported := reported + [packet.mid];
      } else if packet.command / 16 == CMD_DISCONNECT / 16 {
        connected := false;
      }
      Advance(done);
    }

    /** The outer loop of packet__write. */
    method PushOut() returns (rc: int)
      requires Valid() && connected && (current == null ==> queue == [])
      modifies this, queue, Opt(current)
      ensures Valid()
      ensures frames == old(frames) && mids == old(mids) && connectPending == old(connectPending)
      ensures Progressed()
      ensures if !connected then rc == SUCCESS
              else (wire == EncodeFrames(frames) && rc == SUCCESS) || (old(calls) < calls && Refused() && rc == WriteOutcome(script(calls - 1)))
    {
      hide Linked, Waiting, Writing, Written, Reported, Recorded, EncodeFrames;
      while current != null
        invariant Valid() && connectPending == old(connectPending) && connected
        invariant old(wire) <= wire && frames == old(frames) && mids == old(mids) && old(done) <= done && old(calls) <= calls
        invariant current == null ==> queue == []
        invariant forall p | p in queue :: p in old(queue)
        invariant current != null ==> current in old(queue) || current == old(current)
        invariant forall i | old(done) <= i < done :: frames[i].command / 16 != 14
        decreases |queue|, current != null
      {
        var packet, out := current, false;
        rc, out := Drain(packet);
        if !out { return rc; }
        Conclude(packet);
        if !connected { return SUCCESS; }
      }
      NothingPending();
      return SUCCESS;
    }

    /** packet__write: push out as much as the socket will take. */
    method Write() returns (rc: int)
      requires Valid()
      modifies this, queue, Opt(current)
      ensures Valid()
      ensures frames == old(frames) && mids == old(mids) && connectPending == old(connectPending)
      ensures Progressed() && Returned(rc)
      ensures !old(connected) || connectPending ==> wire == old(wire) && done == old(done)
    {
      hide Linked, Counted, Waiting, Writing, Written, Reported, Recorded, EncodeFrames;
      HeadOfQueue();
      DoneBounded();
      if !connected { return ERR_NO_CONN; }
      if outPacket != null && current == null {
        NothingCurrent();
        Advance(done);
        DoneBounded();
      }
      if connectPending { return SUCCESS; }
      rc := PushOut();
    }

    lemma NothingCurrent()
      requires Valid() && current == null
      ensures wire == EncodeFrames(frames[..done]) && Reported(done + 0)
    {
    }

    lemma NothingPending()
      requires Valid() && current == null && queue == []
      ensures wire == EncodeFrames(frames)
    {
      assert frames[..done] == frames;
    }
  }

  lemma {:induction false} FramesPrefix(fs: seq<Frame>, n: nat)
    requires n <= |fs|
    ensures EncodeFrames(fs) == EncodeFrames(fs[..n]) + EncodeFrames(fs[n..])
  {
    hide EncodeFrame;
    if n > 0 {
      assert fs[1..][..n - 1] == fs[..n][1..] && fs[1..][n - 1..] == fs[n..];
      FramesPrefix(fs[1..], n - 1);
      ConcatAssoc(EncodeFrame(fs[0]), EncodeFrames(fs[..n][1..]), EncodeFrames(fs[n..]));
    } else {
      assert fs[..0] == [] && fs[0..] == fs;
    }
  }

  /** What the socket has taken is the beginning of what was queued. */
  lemma WirePrefix(w: Writer)
    requires w.Valid()
    ensures w.wire <= EncodeFrames(w.frames)
  {
    FramesPrefix(w.frames, w.done);
    var rest := w.frames[w.done..];
    if w.current != null {
      assert rest[0] == w.frames[w.done];
      assert EncodeFrames(rest) == EncodeFrame(rest[0]) + EncodeFrames(rest[1..]);
      hide EncodeFrame, EncodeFrames;
      assert w.current.payload[..w.current.pos] <= w.current.payload[..];
    }
  }

  /** From one end to the other. Packets are queued on one side and written in
      whatever parts the socket takes; what of it has reached the other side is
      read in whatever pieces it arrives. The packets handled there are always
      the beginning of those queued here, in order and unchanged, and all of
      them once all bytes have come through. */
  lemma EndToEnd(w: Writer, r: Reader)
    requires w.Valid() && r.Valid()
    requires r.feed <= w.wire
    ensures r.handled <= w.frames
    ensures r.taken == |EncodeFrames(w.frames)| ==> r.handled == w.frames
  {
    WirePrefix(w);
    var got := r.feed[..r.taken];
    assert got <= EncodeFrames(w.frames);
    AnyPiecesSamePackets(w.frames, r.tokens);
  }
}
