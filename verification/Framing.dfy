/** Messages in a stream of bytes: a length of four bytes, then so many bytes (BEP 3, peer messages). */
module Framing {
  import opened Bytes

  type Message = seq<byte>

  const BT_LEN_PRE := 4
  const BT_MSGLEN_PIECE := 9
  const MAX_SLICE_SIZE := 0x2_0000

  /** The longest message that is accepted. */
  const MAX_MESSAGE: nat := MAX_SLICE_SIZE + BT_LEN_PRE + BT_MSGLEN_PIECE

  /** The length of the message that the bytes start with, or 0 if there are not four bytes of it. */
  function Prefix(s: seq<byte>): (n: nat)
    ensures n < POW32
  {
    if |s| >= BT_LEN_PRE then BigEndian(s) else 0
  }

  /** The bytes start with a whole message. */
  predicate Complete(s: seq<byte>) {
    |s| >= BT_LEN_PRE && Prefix(s) <= MAX_MESSAGE && |s| >= BT_LEN_PRE + Prefix(s)
  }

  /** The bytes start with the length of a message that is too long. */
  predicate TooLong(s: seq<byte>) {
    Prefix(s) > MAX_MESSAGE
  }

  /** The messages in the bytes, and what is left. */
  function Frames(s: seq<byte>): seq<Message>
    decreases |s|
  {
    if Complete(s) then [s[BT_LEN_PRE..BT_LEN_PRE + Prefix(s)]] + Frames(s[BT_LEN_PRE + Prefix(s)..]) else []
  }

  function Rest(s: seq<byte>): seq<byte>
    decreases |s|
  {
    if Complete(s) then Rest(s[BT_LEN_PRE + Prefix(s)..]) else s
  }

  predicate Short(m: Message) {
    |m| <= MAX_MESSAGE
  }

  predicate AllShort(ms: seq<Message>) {
    forall i :: 0 <= i < |ms| ==> Short(ms[i])
  }

  function Encode(m: Message): seq<byte>
    requires Short(m)
  {
    PutInt(|m|) + m
  }

  function EncodeAll(ms: seq<Message>): seq<byte>
    requires AllShort(ms)
  {
    if ms == [] then [] else Encode(ms[0]) + EncodeAll(ms[1..])
  }

  lemma FirstFrame(m: Message, rest: seq<byte>)
    requires Short(m)
    ensures var s := Encode(m) + rest;
      Complete(s) && Prefix(s) == |m| && Frames(s) == [m] + Frames(rest) && Rest(s) == Rest(rest)
  {
    GetPut(|m|, m + rest);
    var s := Encode(m) + rest;
    assert s == PutInt(|m|) + (m + rest);
    assert s[BT_LEN_PRE..BT_LEN_PRE + |m|] == m && s[BT_LEN_PRE + |m|..] == rest;
  }

  lemma {:induction false} EncodeAllAdd(ms: seq<Message>, m: Message)
    requires AllShort(ms) && Short(m)
    ensures AllShort(ms + [m]) && EncodeAll(ms + [m]) == EncodeAll(ms) + Encode(m)
  {
    var more := ms + [m];
    if ms == [] {
      assert more[1..] == [];
    } else {
      EncodeAllAdd(ms[1..], m);
      assert more[1..] == ms[1..] + [m];
    }
  }

  lemma Regroup(x: seq<byte>, y: seq<byte>, z: seq<byte>)
    ensures x + (y + z) == x + y + z
  {
  }

  /** There is one way only to take a stream apart: whatever messages it is made of are its frames. */
  lemma {:induction false} FramesUnique(ms: seq<Message>, rest: seq<byte>)
    requires AllShort(ms)
    ensures Frames(EncodeAll(ms) + rest) == ms + Frames(rest)
    ensures Rest(EncodeAll(ms) + rest) == Rest(rest)
  {
    if ms == [] {
      assert EncodeAll(ms) + rest == rest;
    } else {
      var m, more := ms[0], ms[1..];
      FramesUnique(more, rest);
      hide Frames, Rest, Encode, EncodeAll, Complete;
      AddFirst(m, more, rest);
      FirstFrame(m, EncodeAll(more) + rest);
      SplitFirst(ms, Frames(rest));
    }
  }

  lemma SplitFirst(ms: seq<Message>, more: seq<Message>)
    requires ms != []
    ensures [ms[0]] + ms[1..] == ms && [ms[0]] + (ms[1..] + more) == ms + more
  {
  }

  /** The frames and the rest are the whole stream, and the rest has no message in it. */
  lemma {:induction false} FramesWhole(s: seq<byte>)
    ensures AllShort(Frames(s)) && s == EncodeAll(Frames(s)) + Rest(s) && !Complete(Rest(s))
    decreases |s|
  {
    if Complete(s) {
      var m, later := s[BT_LEN_PRE..BT_LEN_PRE + Prefix(s)], s[BT_LEN_PRE + Prefix(s)..];
      TakeFrame(s);
      FramesWhole(later);
      hide *;
      AddFirst(m, Frames(later), Rest(later));
    } else {
      assert Frames(s) == [] && EncodeAll([]) == [];
    }
  }

  lemma TakeFrame(s: seq<byte>)
    requires Complete(s)
    ensures var m, later := s[BT_LEN_PRE..BT_LEN_PRE + Prefix(s)], s[BT_LEN_PRE + Prefix(s)..];
      Short(m) && s == Encode(m) + later && Frames(s) == [m] + Frames(later) && Rest(s) == Rest(later) && |later| < |s|
  {
    PutGet(s);
    hide BigEndian, PutInt;
    var n := Prefix(s);
    assert s == s[..BT_LEN_PRE] + s[BT_LEN_PRE..BT_LEN_PRE + n] + s[BT_LEN_PRE + n..];
  }

  lemma AddFirst(m: Message, ms: seq<Message>, rest: seq<byte>)
    requires Short(m) && AllShort(ms)
    ensures AllShort([m] + ms) && EncodeAll([m] + ms) + rest == Encode(m) + (EncodeAll(ms) + rest)
  {
    assert ([m] + ms)[1..] == ms;
    hide Encode;
  }

  /** The frames do not depend on how the stream is cut. */
  lemma FramesChunks(s: seq<byte>, t: seq<byte>)
    ensures Frames(s + t) == Frames(s) + Frames(Rest(s) + t)
    ensures Rest(s + t) == Rest(Rest(s) + t)
  {
    FramesWhole(s);
    assert s + t == EncodeAll(Frames(s)) + (Rest(s) + t);
    FramesUnique(Frames(s), Rest(s) + t);
  }

  /** The frames of a part of a stream are some of the messages that it is made of. */
  lemma FramesOfPart(ms: seq<Message>, part: seq<byte>)
    requires AllShort(ms) && part <= EncodeAll(ms)
    ensures Frames(part) <= ms && (part == EncodeAll(ms) ==> Frames(part) == ms)
  {
    var left := EncodeAll(ms)[|part|..];
    assert part + left == EncodeAll(ms) + [];
    FramesUnique(ms, []);
    FramesChunks(part, left);
    assert ms + Frames([]) == ms;
  }

  /** A keepalive is a message of length 0; only zero bytes after the first make it one. */
  lemma KeepaliveIff(after: seq<byte>)
    requires |after| == 3
    ensures Prefix([0] + after) == 0 <==> after == [0, 0, 0]
  {
  }
}
