/**
 * Items laid out one behind the other and read back until a declared length is
 * used up: the shape of an MQTT 5 property block, independent of what an item
 * looks like.
 */
module Repetition {
  import opened Mqtt
  import opened Wire

  /** The encodings of the items, in order. */
  function EncodeAll<T>(encode: T -> seq<byte>, xs: seq<T>): seq<byte> {
    if xs == [] then [] else encode(xs[0]) + EncodeAll(encode, xs[1..])
  }

  lemma {:induction false} EncodeAllConcat<T>(encode: T -> seq<byte>, xs: seq<T>, ys: seq<T>)
    ensures EncodeAll(encode, xs + ys) == EncodeAll(encode, xs) + EncodeAll(encode, ys)
  {
    if xs == [] {
      assert xs + ys == ys;
    } else {
      assert (xs + ys)[1..] == xs[1..] + ys;
      EncodeAllConcat(encode, xs[1..], ys);
      ConcatAssoc(encode(xs[0]), EncodeAll(encode, xs[1..]), EncodeAll(encode, ys));
    }
  }

  /** As many times the same item. */
  lemma {:induction false} EncodeAllSame<T>(encode: T -> seq<byte>, x: T, n: nat)
    ensures |EncodeAll(encode, seq(n, i => x))| == n * |encode(x)|
  {
    if n > 0 {
      assert seq(n, i => x)[1..] == seq(n - 1, i => x);
      EncodeAllSame(encode, x, n - 1);
    }
  }

  function Prepend<T>(xs: seq<T>, r: Parsed<seq<T>>): Parsed<seq<T>> {
    match r
    case Failed(rc) => Failed(rc)
    case Parsed(ys, next) => Parsed(xs + ys, next)
  }

  lemma PrependStep<T>(xs: seq<T>, x: T, r: Parsed<seq<T>>)
    ensures Prepend([], r) == r
    ensures Prepend(xs, Prepend([x], r)) == Prepend(xs + [x], r)
  {
    if r.Parsed? {
      assert [] + r.value == r.value;
      assert xs + ([x] + r.value) == (xs + [x]) + r.value;
    }
  }

  /** Reading goes on while some of the declared length is left, so a last item
      may overshoot it. A reader that does not advance gets nowhere. */
  ghost function ReadFrom<T>(read: nat -> Parsed<T>, limit: nat, pos: nat, left: int): Parsed<seq<T>>
    decreases limit - pos
  {
    if left <= 0 then Parsed([], pos)
    else
      match read(pos)
      case Failed(rc) => Failed(rc)
      case Parsed(x, next) =>
        if pos < next <= limit then Prepend([x], ReadFrom(read, limit, next, left - (next - pos)))
        else Failed(ERR_PROTOCOL)
  }

  /** A reader finds an item exactly where the encoding of a good item stands. */
  ghost predicate ReadsBack<T(!new)>(read: nat -> Parsed<T>, encode: T -> seq<byte>, good: T -> bool, buf: seq<byte>) {
    && (forall pos: nat, x, next :: read(pos) == Parsed(x, next) <==>
                               good(x) && Holds(buf, pos, encode(x)) && next == pos + |encode(x)|)
    && (forall x :: encode(x) != [])
  }

  /** The declared length runs out with the last item, never earlier. */
  predicate Covers<T>(encode: T -> seq<byte>, xs: seq<T>, left: int) {
    if left <= 0 then xs == [] else xs != [] && Covers(encode, xs[1..], left - |encode(xs[0])|)
  }

  /** Reading a list with a first item: that item, then the rest. */
  lemma ReadFromCons<T(!new)>(read: nat -> Parsed<T>, encode: T -> seq<byte>, good: T -> bool,
                              buf: seq<byte>, pos: nat, left: int, xs: seq<T>, next: nat)
    requires ReadsBack(read, encode, good, buf) && pos <= |buf|
    requires left > 0 && xs != []
    ensures var n := |encode(xs[0])|;
            ReadFrom(read, |buf|, pos, left) == Parsed(xs, next) <==>
            && good(xs[0]) && Holds(buf, pos, encode(xs[0]))
            && ReadFrom(read, |buf|, pos + n, left - n) == Parsed(xs[1..], next)
  {
    var x, rest := xs[0], xs[1..];
    assert xs == [x] + rest;
    var mid := pos + |encode(x)|;
    assert read(pos) == Parsed(x, mid) <==> good(x) && Holds(buf, pos, encode(x));
    match read(pos)
    case Failed(_) =>
    case Parsed(y, n) => assert n == pos + |encode(y)| && pos < n <= |buf|;
  }

  /** A list of good items stands in the buffer, covers the declared length, and
      ends at `next`. */
  ghost predicate LaidOut<T(!new)>(encode: T -> seq<byte>, good: T -> bool, buf: seq<byte>, pos: nat, left: int, xs: seq<T>, next: nat) {
    && (forall x | x in xs :: good(x))
    && Covers(encode, xs, left)
    && Holds(buf, pos, EncodeAll(encode, xs))
    && next == pos + |EncodeAll(encode, xs)|
  }

  lemma LaidOutCons<T(!new)>(encode: T -> seq<byte>, good: T -> bool, buf: seq<byte>, pos: nat, left: int, xs: seq<T>, next: nat)
    requires left > 0 && xs != []
    ensures var n := |encode(xs[0])|;
            LaidOut(encode, good, buf, pos, left, xs, next) <==>
            && good(xs[0]) && Holds(buf, pos, encode(xs[0]))
            && LaidOut(encode, good, buf, pos + n, left - n, xs[1..], next)
  {
    var x, rest := xs[0], xs[1..];
    var e, d := encode(x), EncodeAll(encode, rest);
    assert xs == [x] + rest;
    assert (forall y | y in xs :: good(y)) <==> good(x) && forall y | y in rest :: good(y);
    assert EncodeAll(encode, xs) == e + d && |e + d| == |e| + |d|;
    assert Covers(encode, xs, left) <==> Covers(encode, rest, left - |e|);
    if Holds(buf, pos, e + d) { HoldsSlice(buf, pos, e, d); }
    if Holds(buf, pos, e) && Holds(buf, pos + |e|, d) { HoldsJoin(buf, pos, e, d); }
    hide Holds, EncodeAll, Covers;
  }

  /** What is read is exactly a list of good items whose encoding stands in the
      buffer and that covers the declared length; reading stops behind it. */
  lemma {:induction false} ReadFromExact<T(!new)>(read: nat -> Parsed<T>, encode: T -> seq<byte>, good: T -> bool,
                                            buf: seq<byte>, pos: nat, left: int, xs: seq<T>, next: nat)
    requires ReadsBack(read, encode, good, buf) && pos <= |buf|
    ensures ReadFrom(read, |buf|, pos, left) == Parsed(xs, next) <==> LaidOut(encode, good, buf, pos, left, xs, next)
    decreases |xs|
  {
    if left > 0 && xs != [] {
      ReadFromCons(read, encode, good, buf, pos, left, xs, next);
      LaidOutCons(encode, good, buf, pos, left, xs, next);
      hide ReadFrom, ReadsBack, LaidOut;
      var mid := pos + |encode(xs[0])|;
      if mid <= |buf| { ReadFromExact(read, encode, good, buf, mid, left - |encode(xs[0])|, xs[1..], next); }
    } else if left <= 0 && xs == [] {
      assert Holds(buf, pos, []);
    }
  }

  /** A list covers its own length, provided no item is empty. */
  lemma {:induction false} CoversItself<T>(encode: T -> seq<byte>, xs: seq<T>)
    requires forall x | x in xs :: encode(x) != []
    ensures Covers(encode, xs, |EncodeAll(encode, xs)|)
  {
    if xs != [] {
      CoversItself(encode, xs[1..]);
    }
  }

  /** A covering list is at least as long as declared, and all but its last item
      are shorter. */
  lemma {:induction false} CoversBound<T>(encode: T -> seq<byte>, xs: seq<T>, left: nat)
    requires Covers(encode, xs, left)
    ensures left <= |EncodeAll(encode, xs)|
    ensures xs != [] ==> |EncodeAll(encode, xs[..|xs| - 1])| < left
  {
    if xs != [] {
      var n := |encode(xs[0])|;
      if left > n {
        CoversBound(encode, xs[1..], left - n);
        assert xs[..|xs| - 1][1..] == xs[1..][..|xs[1..]| - 1];
      } else {
        assert xs[..0] == [];
      }
    }
  }
}
