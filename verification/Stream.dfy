/** The messages that go over a socket to a peer and come from it (btstream.cpp). */
module Streams {
  import opened Bytes
  import opened Framing
  import opened Buffers

  const HANDSHAKE := 68
  const MAX_BUFFER: nat := MAX_SLICE_SIZE + BUFIO_DEF_SIZ + BUFIO_INC_SIZ

  const BT_MSG_HAVE: byte := 4
  const BT_MSG_BITFIELD: byte := 5
  const BT_MSG_REQUEST: byte := 6
  const BT_MSG_PIECE: byte := 7
  const BT_MSG_CANCEL: byte := 8

  /** The messages for one byte of piece 1 at 2, byte by byte (BEP 3, peer messages). */
  lemma OnTheWire()
    ensures Encode([BT_MSG_HAVE] + PutInt(1)) == [0, 0, 0, 5, 4, 0, 0, 0, 1]
    ensures Encode([BT_MSG_REQUEST] + PutInt(1) + PutInt(2) + PutInt(1)) == [0, 0, 0, 13, 6, 0, 0, 0, 1, 0, 0, 0, 2, 0, 0, 0, 1]
    ensures Encode([BT_MSG_PIECE] + PutInt(1) + PutInt(2) + [9]) == [0, 0, 0, 10, 7, 0, 0, 0, 1, 0, 0, 0, 2, 9]
    ensures Encode([BT_MSG_CANCEL] + PutInt(1) + PutInt(2) + PutInt(1)) == [0, 0, 0, 13, 8, 0, 0, 0, 1, 0, 0, 0, 2, 0, 0, 0, 1]
    ensures Encode([BT_MSG_BITFIELD] + [0x80]) == [0, 0, 0, 2, 5, 0x80] && Encode([]) == [0, 0, 0, 0]
  {
    SmallNumbers();
  }

  lemma SmallNumbers()
    ensures PutInt(0) == [0, 0, 0, 0] && PutInt(1) == [0, 0, 0, 1] && PutInt(2) == [0, 0, 0, 2] && PutInt(5) == [0, 0, 0, 5]
    ensures PutInt(10) == [0, 0, 0, 10] && PutInt(13) == [0, 0, 0, 13]
  {
  }

  /** What is in the buffer of the payload of the piece message that it starts with. */
  function PayloadIn(s: seq<byte>): nat {
    if Prefix(s) > BT_MSGLEN_PIECE && |s| > BT_LEN_PRE + BT_MSGLEN_PIECE && s[BT_LEN_PRE] == BT_MSG_PIECE then
      (if |s| >= BT_LEN_PRE + Prefix(s) then Prefix(s) else |s| - BT_LEN_PRE) - BT_MSGLEN_PIECE
    else 0
  }

  /** A turn of receiving, in which so many messages are accepted; another size for the input; a message of one byte; or the
      network changes. */
  datatype Step =
    | Receive(feed: bool, limit: nat, accepts: nat)
    | Resize(size: nat)
    | Tell(state: byte)
    | Network(room: nat, breaks: bool, more: seq<byte>, ending: Ending)

  /** What the network gives in these steps. */
  function Given(steps: seq<Step>): seq<byte> {
    if steps == [] then []
    else Given(steps[..|steps| - 1]) + if steps[|steps| - 1].Network? then steps[|steps| - 1].more else []
  }

  class Stream {
    const sk: Socket
    const input: BufIo
    const output: BufIo
    var msglen: nat
    var oldbytes: nat
    /** What the rate has been told of. */
    var counted: nat
    /** The messages that have been delivered, and those that have been put into the output after the handshake. */
    ghost var delivered: seq<Message>
    ghost var greeting: seq<byte>
    ghost var said: seq<Message>

    ghost predicate Valid()
      reads this, input, output
    {
      && input != output && input.buf != output.buf && input.Valid() && output.Valid()
      && input.max == output.max == MAX_BUFFER && input.buf.Length <= MAX_BUFFER
    }

    /** The handshake is still to come. */
    ghost predicate Fresh()
      reads this, input, output, input.buf, sk
    {
      Valid() && msglen == oldbytes == 0 && delivered == [] && (input.valid ==> sk.received == input.Contents())
    }

    /** What has come after the handshake. */
    ghost function Heard(): seq<byte>
      reads sk
    {
      if |sk.received| >= HANDSHAKE then sk.received[HANDSHAKE..] else []
    }

    /** The length field fits the buffer, and nothing has been lost: what has come is what has been delivered and the buffer. */
    ghost predicate Framed()
      reads this, input, output, input.buf, sk
    {
      && Valid() && msglen == Prefix(input.Contents()) && |sk.received| >= HANDSHAKE
      && AllShort(delivered) && EncodeAll(delivered) + input.Contents() <= Heard()
      && (input.valid ==> EncodeAll(delivered) + input.Contents() == Heard())
      && (oldbytes > 0 ==> oldbytes <= PayloadIn(input.Contents()) && !Complete(input.Contents()))
    }

    /** Nothing that has been said is lost or out of order as long as the output is valid. */
    ghost predicate Spoken()
      reads this, input, output, output.buf, sk
    {
      && Valid() && AllShort(said) && sk.sent <= greeting + EncodeAll(said)
      && (output.valid ==> sk.sent + output.Contents() == greeting + EncodeAll(said))
    }

    constructor ()
      ensures Fresh() && Spoken() && greeting == [] && said == []
    {
      sk := new Socket();
      input := new BufIo();
      output := new BufIo();
      msglen, oldbytes, counted, delivered, greeting, said := 0, 0, 0, [], [], [];
      new;
      input.MaxSize(MAX_BUFFER);
      output.MaxSize(MAX_BUFFER);
    }

    /** Feed during the handshake. */
    method FeedRaw() returns (r: int, ghost got: seq<byte>)
      requires Fresh() && Spoken()
      modifies input, input.buf, sk`received, sk`broken, sk`coming
      ensures Fresh() && Spoken() && sk.received == old(sk.received) + got
      ensures if input.valid && !input.remoteClosed then r == input.len else r == -1
    {
      r, got := input.FeedIn(sk, input.LeftSize());
    }

    /** The end of the handshake, in HandShake of peer.cpp, and the bitfield. */
    method Begin(bits: seq<byte>) returns (r: int)
      requires Fresh() && Spoken() && input.valid && input.len >= HANDSHAKE && |bits| <= MAX_SLICE_SIZE
      modifies this`msglen, this`said, input, input.buf, output, output.buf, sk`sent, sk`broken, sk`room
      ensures Framed() && Spoken() && input.valid && input.Contents() == old(input.Contents())[HANDSHAKE..]
      ensures said == if bits == [] then old(said) else old(said) + [[BT_MSG_BITFIELD] + bits]
    {
      hide BigEndian, PayloadIn;
      assert AllShort([]) && EncodeAll([]) == [];
      r := input.PickUp(HANDSHAKE);
      r := SendBitfield(bits);
    }

    method SendBitfield(bits: seq<byte>) returns (r: int)
      requires Spoken() && |bits| <= MAX_SLICE_SIZE
      modifies this`msglen, this`said, output, output.buf, sk`sent, sk`broken, sk`room
      ensures Spoken() && msglen == Prefix(input.Contents())
      ensures said == if bits == [] then old(said) else old(said) + [[BT_MSG_BITFIELD] + bits]
    {
      SetMsglen();
      if bits == [] {
        return 0;
      }
      GetPut(1 + |bits|, [BT_MSG_BITFIELD]);
      hide BigEndian, PutInt, EncodeAll, AllShort;
      r := SayParts(PutInt(1 + |bits|) + [BT_MSG_BITFIELD], bits, false);
    }

    /** Send_Buffer, which is for the handshake. */
    method SendBuffer(data: seq<byte>) returns (r: int)
      requires Spoken() && said == []
      modifies this`greeting, output, output.buf, sk`sent, sk`broken, sk`room
      ensures Spoken() && greeting == old(greeting) + data && (r >= 0 <==> output.valid)
      ensures output.buf == old(output.buf) || fresh(output.buf)
    {
      r := output.PutFlush(sk, data);
      greeting := greeting + data;
    }

    /** Puts a whole message into the output. */
    method Say(msg: seq<byte>) returns (r: int)
      requires Spoken() && |msg| >= BT_LEN_PRE && BigEndian(msg) == |msg| - BT_LEN_PRE <= MAX_MESSAGE
      modifies this`said, output, output.buf, sk`sent, sk`broken, sk`room
      ensures Spoken() && said == old(said) + [msg[BT_LEN_PRE..]] && (r == 0 <==> output.valid)
      ensures output.buf == old(output.buf) || fresh(output.buf)
    {
      hide EncodeAll, Encode, BigEndian, AllShort, BufIo.Spilled;
      SaidMore(greeting, said, msg, []);
      r := output.Put(sk, msg);
      said := said + [msg[BT_LEN_PRE..]];
    }

    method PutPart(data: seq<byte>, flush: bool) returns (r: int)
      requires output.Valid()
      modifies output, output.buf, sk`sent, sk`broken, sk`room
      ensures output.Valid() && (output.buf == old(output.buf) || fresh(output.buf))
      ensures output.max == old(output.max)
      ensures r >= 0 <==> output.valid
      ensures output.valid ==> old(output.valid) && sk.sent + output.Contents() == old(sk.sent + output.Contents()) + data
      ensures old(sk.sent) <= sk.sent <= old(sk.sent + output.Contents()) + data
      ensures !old(output.valid) ==> sk.sent == old(sk.sent)
      ensures flush && output.valid ==> output.len == 0 || sk.room == 0
    {
      if flush {
        r := output.PutFlush(sk, data);
      } else {
        r := output.Put(sk, data);
      }
    }

    /** Puts a message into the output whose body is elsewhere. */
    method SayParts(head: seq<byte>, body: seq<byte>, flush: bool) returns (r: int)
      requires Spoken() && |head| >= BT_LEN_PRE && BigEndian(head) == |head| - BT_LEN_PRE + |body| <= MAX_MESSAGE
      modifies this`said, output, output.buf, sk`sent, sk`broken, sk`room
      ensures Spoken() && said == old(said) + [head[BT_LEN_PRE..] + body] && (r >= 0 <==> output.valid)
      ensures output.buf == old(output.buf) || fresh(output.buf)
      ensures flush && output.valid ==> output.len == 0 || sk.room == 0
    {
      hide EncodeAll, Encode, BigEndian, AllShort, BufIo.Spilled;
      SaidMore(greeting, said, head, body);
      r := output.Put(sk, head);
      if r >= 0 {
        r := PutPart(body, flush);
      }
      said := said + [head[BT_LEN_PRE..] + body];
    }

    static lemma SaidMore(greeting: seq<byte>, said: seq<Message>, head: seq<byte>, body: seq<byte>)
      requires AllShort(said)
      requires |head| >= BT_LEN_PRE && BigEndian(head) == |head| - BT_LEN_PRE + |body| <= MAX_MESSAGE
      ensures var more, all := said + [head[BT_LEN_PRE..] + body], greeting + EncodeAll(said);
        AllShort(more) && greeting + EncodeAll(more) == all + head + body && (body == [] ==> head[BT_LEN_PRE..] + body == head[BT_LEN_PRE..])
    {
      Encoded(head, body);
      EncodeAllAdd(said, head[BT_LEN_PRE..] + body);
    }

    static lemma Encoded(head: seq<byte>, body: seq<byte>)
      requires |head| >= BT_LEN_PRE && BigEndian(head) == |head| - BT_LEN_PRE + |body| <= MAX_MESSAGE
      ensures Encode(head[BT_LEN_PRE..] + body) == head + body
    {
      PutGet(head);
    }

    /** Send_Keepalive: the three bytes after the first are what follows an empty string in memory. */
    method SendKeepalive(after: seq<byte>) returns (r: int)
      requires Spoken() && |after| == 3
      modifies this`said, output, output.buf, sk`sent, sk`broken, sk`room
      ensures Valid() && (r == 0 <==> output.valid)
      ensures output.valid ==> sk.sent + output.Contents() == old(sk.sent + output.Contents()) + [0] + after
      ensures after == [0, 0, 0] ==> Spoken() && said == old(said) + [[]]
    {
      if after == [0, 0, 0] {
        SaidMore(greeting, said, [0] + after, []);
        said := said + [[]];
      }
      r := output.Put(sk, [0] + after);
    }

    method SendState(state: byte) returns (r: int)
      requires Spoken()
      modifies this`said, output, output.buf, sk`sent, sk`broken, sk`room
      ensures Spoken() && said == old(said) + [[state]] && (r == 0 <==> output.valid)
      ensures output.buf == old(output.buf) || fresh(output.buf)
    {
      GetPut(1, [state]);
      r := Say(PutInt(1) + [state]);
    }

    method SendHave(idx: nat) returns (r: int)
      requires Spoken() && idx < POW32
      modifies this`said, output, output.buf, sk`sent, sk`broken, sk`room
      ensures Spoken() && said == old(said) + [[BT_MSG_HAVE] + PutInt(idx)] && (r == 0 <==> output.valid)
    {
      GetPut(5, [BT_MSG_HAVE] + PutInt(idx));
      r := Say(PutInt(5) + ([BT_MSG_HAVE] + PutInt(idx)));
    }

    method SendRequest(idx: nat, off: nat, len: nat) returns (r: int)
      requires Spoken() && idx < POW32 && off < POW32 && len < POW32
      modifies this`said, output, output.buf, sk`sent, sk`broken, sk`room
      ensures Spoken() && said == old(said) + [[BT_MSG_REQUEST] + PutInt(idx) + PutInt(off) + PutInt(len)]
      ensures r == 0 <==> output.valid
    {
      var m := [BT_MSG_REQUEST] + PutInt(idx) + PutInt(off) + PutInt(len);
      GetPut(13, m);
      r := Say(PutInt(13) + m);
    }

    method SendCancel(idx: nat, off: nat, len: nat) returns (r: int)
      requires Spoken() && idx < POW32 && off < POW32 && len < POW32
      modifies this`said, output, output.buf, sk`sent, sk`broken, sk`room
      ensures Spoken() && said == old(said) + [[BT_MSG_CANCEL] + PutInt(idx) + PutInt(off) + PutInt(len)]
      ensures r == 0 <==> output.valid
    {
      var m := [BT_MSG_CANCEL] + PutInt(idx) + PutInt(off) + PutInt(len);
      GetPut(13, m);
      r := Say(PutInt(13) + m);
    }

    method SendPiece(idx: nat, off: nat, slice: seq<byte>) returns (r: int)
      requires Spoken() && idx < POW32 && off < POW32 && |slice| <= MAX_SLICE_SIZE
      modifies this`said, output, output.buf, sk`sent, sk`broken, sk`room
      ensures Spoken() && said == old(said) + [[BT_MSG_PIECE] + PutInt(idx) + PutInt(off) + slice]
      ensures (r >= 0 <==> output.valid) && (output.valid ==> output.len == 0 || sk.room == 0)
    {
      var m := [BT_MSG_PIECE] + PutInt(idx) + PutInt(off);
      GetPut(BT_MSGLEN_PIECE + |slice|, m);
      r := SayParts(PutInt(BT_MSGLEN_PIECE + |slice|) + m, slice, true);
    }

    /** As much has come as was asked for and was there, and the input is valid unless that ended badly. */
    twostate predicate Fed(limit: nat)
      requires old(input.Valid())
      reads input, sk
    {
      var want := old(input.Wanted(limit));
      var most := Min(want, |old(sk.coming)|);
      && sk.received == old(sk.received) + old(sk.coming)[..most] && sk.coming == old(sk.coming)[most..]
      && input.valid == (want > 0 && (most == want || !sk.ending.Fails?))
      && input.remoteClosed == (old(input.remoteClosed) || (most < want && sk.ending.Closes?))
    }

    /** Feed: at most `limit` bytes, or as many as there is room for if that is 0. */
    method Feed(limit: nat) returns (r: int)
      requires Framed()
      modifies this`msglen, this`oldbytes, this`counted, input, input.buf, sk`received, sk`broken, sk`coming
      ensures Framed() && old(sk.received) <= sk.received && (input.buf == old(input.buf) || fresh(input.buf))
      ensures if input.valid && !input.remoteClosed then r == input.len else r == -1
      ensures (old(input.valid) ==> Fed(limit)) && delivered == old(delivered)
      ensures !TooLong(input.Contents()) ==>
        && counted == old(counted) + PayloadIn(input.Contents()) - old(oldbytes)
        && oldbytes == if Complete(input.Contents()) then 0 else PayloadIn(input.Contents())
      ensures old(input.valid) && !input.valid ==> sk.broken || old(Complete(input.Contents()) || TooLong(input.Contents()))
    {
      hide EncodeAll, AllShort, PayloadIn, Complete, Prefix;
      var few := input.len < BT_LEN_PRE;
      ghost var was, got := input.Contents(), [];
      r, got := input.FeedIn(sk, limit);
      FeedGrows(was, input.Contents());
      FullBuffer(was);
      if few {
        SetMsglen();
      }
      CountPayload(was);
    }

    /** A buffer of the largest size has no room left only for garbage and for what is to be delivered. */
    static lemma FullBuffer(s: seq<byte>)
      ensures |s| + BUFIO_INC_SIZ > MAX_BUFFER ==> Complete(s) || TooLong(s)
    {
    }

    /** How long the first message in the buffer is. */
    method SetMsglen()
      requires Valid()
      modifies `msglen
      ensures msglen == Prefix(input.Contents())
    {
      msglen := 0;
      if input.len >= BT_LEN_PRE {
        msglen := BigEndian(input.buf[..input.len]);
      }
    }

    /** Tells the rate what has come of the payload. */
    method CountPayload(ghost was: seq<byte>)
      requires Valid() && msglen == Prefix(input.Contents()) && was <= input.Contents() && oldbytes <= PayloadIn(was)
      modifies `oldbytes, `counted
      ensures !TooLong(input.Contents()) ==>
        && counted == old(counted) + PayloadIn(input.Contents()) - old(oldbytes)
        && oldbytes == if Complete(input.Contents()) then 0 else PayloadIn(input.Contents())
      ensures oldbytes > 0 ==> oldbytes <= PayloadIn(input.Contents()) && !Complete(input.Contents())
    {
      hide BigEndian;
      FeedGrows(was, input.Contents());
      ghost var now := input.Contents();
      assert input.len > BT_LEN_PRE ==> now[BT_LEN_PRE] == input.buf[BT_LEN_PRE];
      if msglen > BT_MSGLEN_PIECE && input.len > BT_LEN_PRE + BT_MSGLEN_PIECE && input.buf[BT_LEN_PRE] == BT_MSG_PIECE {
        var change: nat;
        if input.len >= (msglen + BT_LEN_PRE) % POW32 {
          change := msglen - BT_MSGLEN_PIECE - oldbytes;
          oldbytes := 0;
        } else {
          var nbytes := input.len - BT_LEN_PRE - BT_MSGLEN_PIECE;
          change := nbytes - oldbytes;
          oldbytes := nbytes;
        }
        counted := counted + change;
      }
    }

    /** More of a message does not change its length, nor take payload away. */
    static lemma FeedGrows(was: seq<byte>, now: seq<byte>)
      requires was <= now
      ensures PayloadIn(was) <= PayloadIn(now) && (Complete(was) ==> Complete(now))
      ensures |was| >= BT_LEN_PRE ==> Prefix(was) == Prefix(now)
    {
    }

    /** 1 if the buffer starts with a whole message, 0 if with part of one, -1 if with garbage. */
    method HaveMessage() returns (r: int)
      requires Framed()
      ensures r == 1 <==> Complete(input.Contents())
      ensures r == -1 <==> TooLong(input.Contents())
      ensures r in {-1, 0, 1}
    {
      if BT_LEN_PRE <= input.len {
        if msglen > MAX_MESSAGE {
          return -1;
        }
        if input.len >= msglen + BT_LEN_PRE {
          return 1;
        }
      }
      r := 0;
    }

    method PickMessage() returns (r: int)
      requires Framed() && Complete(input.Contents())
      modifies this`msglen, this`delivered, input, input.buf
      ensures Framed() && r == 0 && input.buf == old(input.buf) && input.valid == old(input.valid) && input.remoteClosed == old(input.remoteClosed)
      ensures delivered == old(delivered) + [old(input.Contents()[BT_LEN_PRE..BT_LEN_PRE + msglen])]
      ensures input.len < old(input.len)
    {
      ghost var s := input.Contents();
      ghost var m := s[BT_LEN_PRE..BT_LEN_PRE + msglen];
      DeliverMore(delivered, s);
      hide EncodeAll, Encode, AllShort, PayloadIn, Prefix, Complete;
      delivered := delivered + [m];
      r := input.PickUp(msglen + BT_LEN_PRE);
      SetMsglen();
    }

    static lemma DeliverMore(delivered: seq<Message>, s: seq<byte>)
      requires AllShort(delivered) && Complete(s)
      ensures var n := BT_LEN_PRE + Prefix(s);
        var more := delivered + [s[BT_LEN_PRE..n]];
        n <= |s| && AllShort(more) && EncodeAll(more) + s[n..] == EncodeAll(delivered) + s
    {
      var m, later := s[BT_LEN_PRE..BT_LEN_PRE + Prefix(s)], s[BT_LEN_PRE + Prefix(s)..];
      TakeFrame(s);
      EncodeAllAdd(delivered, m);
      hide *;
      Regroup(EncodeAll(delivered), Encode(m), later);
    }

    /** What has been delivered is how the frames of all that has come begin, however it came. */
    lemma DeliveredInOrder()
      requires Framed()
      ensures delivered <= Frames(Heard())
      ensures input.valid ==>
        Frames(Heard()) == delivered + Frames(input.Contents()) && Rest(Heard()) == Rest(input.Contents())
    {
      var s := Heard();
      var rest := s[|EncodeAll(delivered)|..];
      assert s == EncodeAll(delivered) + rest;
      FramesUnique(delivered, rest);
    }

    /** RecvModule of peer.cpp; the first `accepts` messages can be delivered, and the next one turns out to be bad. Nothing
        is delivered if receiving fails; otherwise all whole messages are, up to a bad one. */
    method Turn(feed: bool, limit: nat, accepts: nat) returns (r: int, bad: bool)
      requires Framed() && input.valid
      modifies this`msglen, this`oldbytes, this`counted, this`delivered, input, input.buf, sk`received, sk`broken, sk`coming
      ensures Framed() && old(sk.received) <= sk.received && (input.buf == old(input.buf) || fresh(input.buf))
      ensures if feed then Fed(limit)
        else input.valid && input.remoteClosed == old(input.remoteClosed) && sk.received == old(sk.received) && sk.coming == old(sk.coming)
      ensures bad <==> !Cut(feed) && |Frames(Heard())| > |old(delivered)| + accepts
      ensures bad ==> |delivered| == |old(delivered)| + accepts && delivered <= Frames(Heard()) && Complete(input.Contents())
      ensures !bad && !Cut(feed) ==> delivered == Frames(Heard()) && Rest(Heard()) == input.Contents()
      ensures Cut(feed) ==> delivered == old(delivered)
      ensures r == if bad || Cut(feed) || TooLong(input.Contents()) then -1 else 0
    {
      hide Frames, Rest, EncodeAll, AllShort, PayloadIn, Complete, TooLong, Prefix;
      r, bad := 0, false;
      if feed {
        r := Feed(limit);
        if r < 0 {
          return;
        }
      }
      r, bad := DeliverAll(accepts);
    }

    /** Receiving has failed, or the other side has closed. */
    ghost predicate Cut(feed: bool)
      reads input
    {
      feed && (!input.valid || input.remoteClosed)
    }

    /** Delivers the messages in the buffer, up to a bad one. */
    method DeliverAll(accepts: nat) returns (r: int, bad: bool)
      requires Framed() && input.valid
      modifies this`msglen, this`delivered, input, input.buf
      ensures Framed() && input.buf == old(input.buf) && input.valid && input.remoteClosed == old(input.remoteClosed)
      ensures bad <==> |Frames(Heard())| > |old(delivered)| + accepts
      ensures bad ==> |delivered| == |old(delivered)| + accepts && delivered <= Frames(Heard()) && Complete(input.Contents())
      ensures !bad ==> delivered == Frames(Heard()) && Rest(Heard()) == input.Contents()
      ensures r == if bad || TooLong(input.Contents()) then -1 else 0
    {
      hide EncodeAll, AllShort, PayloadIn, Complete, TooLong, Prefix, Frames, Rest;
      bad := false;
      r := HaveMessage();
      ghost var done: nat := 0;
      var left := accepts;
      while r > 0
        invariant Framed() && input.valid && r in {-1, 0, 1}
        invariant input.buf == old(input.buf) && input.remoteClosed == old(input.remoteClosed)
        invariant r == 1 <==> Complete(input.Contents())
        invariant r == -1 <==> TooLong(input.Contents())
        invariant done + left == accepts && |delivered| == |old(delivered)| + done
        decreases input.len
      {
        if left == 0 {
          DeliveredInOrder();
          FirstFrame(input.Contents());
          return -1, true;
        }
        r := PickMessage();
        r := HaveMessage();
        left, done := left - 1, done + 1;
      }
      DeliveredInOrder();
      FirstFrame(input.Contents());
    }

    static lemma FirstFrame(s: seq<byte>)
      ensures Complete(s) <==> Frames(s) != []
      ensures !Complete(s) ==> Rest(s) == s
      ensures TooLong(s) ==> !Complete(s)
    {
    }

    /** All that has come has been delivered, but for the start of a message. */
    ghost predicate Settled()
      reads this, input, output, input.buf, sk
    {
      Valid() && delivered == Frames(Heard()) && input.Contents() == Rest(Heard())
    }

    method Do(step: Step) returns (ok: bool)
      requires Framed() && Spoken() && input.valid
      modifies this`msglen, this`oldbytes, this`counted, this`delivered, this`said
      modifies input, input.buf, output, output.buf, sk
      ensures Framed() && Spoken() && (ok ==> input.valid)
      ensures (input.buf == old(input.buf) || fresh(input.buf)) && (output.buf == old(output.buf) || fresh(output.buf))
      ensures ok && (old(Settled()) || step.Receive?) ==> Settled()
      ensures sk.received + sk.coming == old(sk.received + sk.coming) + if step.Network? then step.more else []
    {
      hide Frames, Rest, EncodeAll, Encode, AllShort, PayloadIn, Complete, TooLong, Prefix;
      var r;
      match step {
        case Receive(feed, limit, accepts) =>
          var bad;
          r, bad := Turn(feed, limit, accepts);
        case Resize(size) =>
          r := input.SetSize(size);
        case Tell(state) =>
          r := SendState(state);
        case Network(room, breaks, more, ending) =>
          sk.Change(room, breaks, more, ending);
          r := 0;
      }
      ok := r == 0;
    }

    /** Whatever is received, resized and sent, in any order: see Framed and Spoken, and what is delivered is settled by what has come. */
    method Run(steps: seq<Step>) returns (ok: bool)
      requires Framed() && Spoken() && input.valid
      modifies this`msglen, this`oldbytes, this`counted, this`delivered, this`said
      modifies input, input.buf, output, output.buf, sk
      ensures Framed() && Spoken() && delivered <= Frames(Heard())
      ensures ok ==> sk.received + sk.coming == old(sk.received + sk.coming) + Given(steps)
      ensures ok && (exists i :: 0 <= i < |steps| && steps[i].Receive?) ==> Settled()
    {
      hide Frames, Rest, EncodeAll, Encode, AllShort, PayloadIn, Complete, Prefix, Settled, Framed, Spoken;
      ok := true;
      var k := 0;
      while k < |steps| && ok
        invariant k <= |steps| && Framed() && Spoken() && (ok ==> input.valid)
        invariant input.buf == old(input.buf) || fresh(input.buf)
        invariant output.buf == old(output.buf) || fresh(output.buf)
        invariant ok && (exists i :: 0 <= i < k && steps[i].Receive?) ==> Settled()
        invariant sk.received + sk.coming == old(sk.received + sk.coming) + Given(steps[..k])
      {
        assert steps[..k + 1][..k] == steps[..k];
        ok := Do(steps[k]);
        k := k + 1;
      }
      DeliveredInOrder();
      assert steps[..|steps|] == steps;
    }
  }

  /** What one side says is what the other delivers: part of it, in order, and all once everything has come. */
  lemma EndToEnd(a: Stream, b: Stream)
    requires a.Spoken() && b.Framed() && |a.greeting| == HANDSHAKE && b.sk.received <= a.sk.sent
    ensures b.delivered <= a.said
    ensures a.output.valid && a.output.len == 0 && b.input.valid && b.sk.received == a.sk.sent && b.Settled() ==>
      b.delivered == a.said
  {
    b.DeliveredInOrder();
    assert (a.greeting + EncodeAll(a.said))[HANDSHAKE..] == EncodeAll(a.said);
    FramesOfPart(a.said, b.Heard());
  }
}
