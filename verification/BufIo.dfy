/** The buffer in front of a socket: a queue of bytes in an array that grows (bufio.cpp). */
module Buffers {
  import opened Bytes

  /** How a call to the socket ends: with so many bytes (none on input: the other side has closed), or without. */
  datatype Outcome = Moved(n: nat) | WouldBlock | Failed

  /** How a call on input ends when there is nothing more to receive. */
  datatype Ending = Waits | Closes | Fails

  /** What the network has taken and given, and whether a call has failed. How it goes on until it changes: it takes `room`
      more bytes, and then calls fail or have to wait; it gives what is `coming`, and then calls end as `ending` says. A call
      that is interrupted is repeated. */
  class Socket {
    var sent: seq<byte>
    var received: seq<byte>
    var broken: bool
    var room: nat
    var breaks: bool
    var coming: seq<byte>
    var ending: Ending

    constructor ()
      ensures sent == [] && received == [] && !broken && coming == []
    {
      sent, received, broken := [], [], false;
      room, breaks, coming, ending := 0, false, [], Waits;
    }

    /** The network takes some of the data, if it takes any. */
    method Send(data: seq<byte>) returns (o: Outcome)
      requires |data| > 0
      modifies `sent, `broken, `room
      ensures if old(room) > 0 then o.Moved? && 0 < o.n <= |data| && o.n <= old(room) else o == if breaks then Failed else WouldBlock
      ensures o.Moved? ==> sent == old(sent) + data[..o.n] && room == old(room) - o.n
      ensures !o.Moved? ==> sent == old(sent) && room == old(room)
      ensures broken == (old(broken) || o.Failed?)
    {
      if room > 0 {
        var more: nat :| more < |data| && more < room;
        var n := more + 1;
        o, sent, room := Moved(n), sent + data[..n], room - n;
      } else if breaks {
        o, broken := Failed, true;
      } else {
        o := WouldBlock;
      }
    }

    /** The network gives some of what is there, if there is anything. */
    method Receive(most: nat) returns (o: Outcome, data: seq<byte>)
      requires most > 0
      modifies `received, `broken, `coming
      ensures received == old(received) + data && old(coming) == data + coming && |data| <= most
      ensures if o.Moved? then |data| == o.n else data == []
      ensures if |old(coming)| > 0 then o.Moved? && o.n > 0
        else o == match ending case Waits => WouldBlock case Closes => Moved(0) case Fails => Failed
      ensures broken == (old(broken) || o.Failed?)
    {
      data := [];
      if |coming| > 0 {
        var more: nat :| more < most && more < |coming|;
        var n := more + 1;
        data := coming[..n];
        o, received, coming := Moved(n), received + data, coming[n..];
      } else {
        match ending {
          case Waits => o := WouldBlock;
          case Closes => o := Moved(0);
          case Fails => o, broken := Failed, true;
        }
      }
    }

    /** The network changes: it takes so much, has more to give, and calls end otherwise. */
    method Change(room: nat, breaks: bool, more: seq<byte>, ending: Ending)
      modifies `room, `breaks, `coming, `ending
      ensures this.room == room && this.breaks == breaks && coming == old(coming) + more && this.ending == ending
    {
      this.room, this.breaks, this.coming, this.ending := room, breaks, coming + more, ending;
    }
  }

  const BUFIO_DEF_SIZ := 256
  const BUFIO_INC_SIZ := 256

  function Min(a: nat, b: nat): nat {
    if a < b then a else b
  }

  function Max(a: nat, b: nat): nat {
    if a < b then b else a
  }

  class BufIo {
    var buf: array<byte>
    var len: nat
    var max: nat
    var valid: bool
    var remoteClosed: bool

    ghost predicate Valid()
      reads this
    {
      len <= buf.Length
    }

    /** The bytes in the buffer. */
    ghost function Contents(): seq<byte>
      requires Valid()
      reads this, buf
    {
      buf[..len]
    }

    constructor ()
      ensures Valid() && Contents() == [] && valid && !remoteClosed && fresh(buf)
      ensures buf.Length == BUFIO_DEF_SIZ && max == BUFIO_DEF_SIZ + 4 * BUFIO_INC_SIZ
    {
      buf := new byte[BUFIO_DEF_SIZ];
      len, max, valid, remoteClosed := 0, BUFIO_DEF_SIZ + 4 * BUFIO_INC_SIZ, true, false;
    }

    function LeftSize(): nat
      requires Valid()
      reads this
    {
      buf.Length - len
    }

    /** No size is too small for what is in the buffer, and none beyond the maximum makes it larger. */
    method SetSize(n: nat) returns (r: int)
      requires Valid()
      modifies `buf
      ensures Valid() && Contents() == old(Contents()) && (buf == old(buf) || fresh(buf))
      ensures r == 0 <==> n <= max || n <= old(buf.Length)
      ensures if r == 0 then buf.Length == Max(n, len) else r == -1 && buf == old(buf)
    {
      if n > max && n > buf.Length {
        return -1;
      }
      var size := if len > n then len else n;
      if size == buf.Length {
        return 0;
      }
      var tbuf := new byte[size];
      forall i | 0 <= i < len {
        tbuf[i] := buf[i];
      }
      buf := tbuf;
      r := 0;
    }

    method MaxSize(n: nat)
      requires Valid()
      modifies `max, `buf
      ensures Valid() && Contents() == old(Contents()) && max == n && (buf == old(buf) || fresh(buf))
      ensures buf.Length == if old(buf.Length) > n then Max(n, len) else old(buf.Length)
    {
      max := n;
      if buf.Length > max {
        var _ := SetSize(max);
      }
    }

    /** Takes the first `n` bytes out of the buffer. */
    method Shift(n: nat)
      requires Valid() && n <= len
      modifies `len, buf
      ensures Valid() && Contents() == old(Contents())[n..]
    {
      len := len - n;
      forall i | 0 <= i < len {
        buf[i] := buf[i + n];
      }
    }

    method PickUp(n: nat) returns (r: int)
      requires Valid()
      modifies `len, buf
      ensures Valid()
      ensures if n <= old(len) then r == 0 && Contents() == old(Contents())[n..] else r == -1 && Contents() == old(Contents())
    {
      if len < n {
        return -1;
      }
      Shift(n);
      r := 0;
    }

    /** Sends what is in the buffer, as far as the socket takes it. */
    method SendAll(sk: Socket) returns (r: int, ghost t: nat)
      requires Valid()
      modifies sk`sent, sk`broken, sk`room
      ensures t == Min(len, old(sk.room)) && sk.sent == old(sk.sent) + Contents()[..t] && sk.room == old(sk.room) - t
      ensures if t < len && sk.breaks then r == -1 && sk.broken else r == t && sk.broken == old(sk.broken)
    {
      var done := 0;
      t := 0;
      while done < len
        invariant t == done <= len && sk.sent == old(sk.sent) + Contents()[..done] && sk.broken == old(sk.broken)
        invariant done <= old(sk.room) && sk.room == old(sk.room) - done
      {
        var o := sk.Send(buf[done..len]);
        match o {
          case Failed =>
            return -1, t;
          case WouldBlock =>
            return done, t;
          case Moved(n) =>
            if n == 0 {
              return done, t;
            }
            assert Contents()[..done + n] == Contents()[..done] + buf[done..len][..n];
            done := done + n;
            t := done;
        }
      }
      r := done;
    }

    /** What has been sent and what is still to be sent are always the same bytes in the same order, and as much is sent as
        the network takes. */
    method FlushOut(sk: Socket) returns (r: int)
      requires Valid()
      modifies `len, `valid, buf, sk`sent, sk`broken, sk`room
      ensures Valid() && valid == (old(valid) && r >= 0)
      ensures r < 0 <==> old(sk.room) < old(len) && sk.breaks
      ensures r >= 0 ==> r == len && sk.sent + Contents() == old(sk.sent + Contents()) && sk.broken == old(sk.broken)
      ensures r < 0 ==> sk.broken && Contents() == old(Contents())
      ensures sk.sent == old(sk.sent) + old(Contents())[..Min(old(len), old(sk.room))]
      ensures sk.room == old(sk.room) - Min(old(len), old(sk.room))
    {
      if len == 0 {
        return 0;
      }
      ghost var t;
      SentAndLeft(sk.sent, Contents(), Min(len, sk.room));
      r, t := SendAll(sk);
      if r < 0 {
        valid := false;
        return;
      }
      if r > 0 {
        Shift(r);
      }
      r := len;
    }

    static lemma SentAndLeft(sent: seq<byte>, s: seq<byte>, t: nat)
      requires t <= |s|
      ensures (sent + s[..t]) + s[t..] == sent + s && (t == 0 ==> s[t..] == s)
    {
    }

    /** Makes room for so many bytes more. */
    method Grow(n: nat) returns (r: int)
      requires Valid()
      modifies `buf
      ensures Valid() && Contents() == old(Contents()) && (buf == old(buf) || fresh(buf)) && buf.Length >= old(buf.Length)
      ensures if LeftSize() >= n then r == 0 else r == -1 && buf.Length + BUFIO_INC_SIZ > max
      ensures old(buf.Length) <= max ==> buf.Length <= max
    {
      while LeftSize() < n
        invariant Valid() && Contents() == old(Contents()) && (buf == old(buf) || fresh(buf)) && buf.Length >= old(buf.Length)
        invariant old(buf.Length) <= max ==> buf.Length <= max
        decreases n - LeftSize()
      {
        r := SetSize(buf.Length + BUFIO_INC_SIZ);
        if r < 0 {
          return;
        }
      }
      r := 0;
    }

    /** To make room for so many bytes as much has been sent as the network takes, and nothing if there was room. */
    twostate predicate Spilled(sk: Socket, n: nat)
      requires old(Valid())
      reads sk`sent, sk`room
    {
      var t := old(if valid && LeftSize() < n then Min(len, sk.room) else 0);
      sk.sent == old(sk.sent) + old(Contents())[..t] && sk.room == old(sk.room) - t
    }

    /** Adds bytes at the end; those before are sent to make room, if there is none. */
    method Put(sk: Socket, data: seq<byte>) returns (r: int)
      requires Valid()
      modifies `len, `valid, `buf, buf, sk`sent, sk`broken, sk`room
      ensures Valid() && (buf == old(buf) || fresh(buf)) && (old(buf.Length) <= max ==> buf.Length <= max)
      ensures r == 0 || r == -1
      ensures r == 0 <==> valid
      ensures valid ==> old(valid) && sk.sent + Contents() == old(sk.sent + Contents()) + data
      ensures Spilled(sk, |data|) && (valid ==> sk.broken == old(sk.broken))
      ensures old(sk.sent) <= sk.sent <= old(sk.sent + Contents())
      ensures !old(valid) ==> sk.sent == old(sk.sent)
      ensures old(valid) && old(LeftSize()) >= |data| ==> valid
      ensures old(valid) && !valid ==>
        (old(sk.room) < old(len) && sk.breaks && sk.broken) || (LeftSize() < |data| && buf.Length + BUFIO_INC_SIZ > max)
    {
      if !valid {
        return -1;
      }
      if LeftSize() < |data| {
        if len > 0 {
          r := FlushOut(sk);
          if r < 0 {
            return -1;
          }
        }
        r := Grow(|data|);
        if r < 0 {
          valid := false;
          return;
        }
      }
      Append(data);
      r := 0;
    }

    method Append(data: seq<byte>)
      requires Valid() && |data| <= LeftSize()
      modifies `len, buf
      ensures Valid() && Contents() == old(Contents()) + data
    {
      forall i | 0 <= i < |data| {
        buf[len + i] := data[i];
      }
      len := len + |data|;
    }

    /** Adds bytes at the end and sends as much as the network takes. */
    method PutFlush(sk: Socket, data: seq<byte>) returns (r: int)
      requires Valid()
      modifies `len, `valid, `buf, buf, sk`sent, sk`broken, sk`room
      ensures Valid() && (buf == old(buf) || fresh(buf)) && (old(buf.Length) <= max ==> buf.Length <= max)
      ensures r >= 0 <==> valid
      ensures valid ==> old(valid) && r == len && sk.sent + Contents() == old(sk.sent + Contents()) + data
      ensures valid ==> len == 0 || sk.room == 0
      ensures !old(valid) ==> sk.sent == old(sk.sent)
      ensures old(sk.sent) <= sk.sent <= old(sk.sent + Contents()) + data
      ensures old(valid) && old(LeftSize()) >= |data| && (old(sk.room) >= old(len) + |data| || !sk.breaks) ==> valid
    {
      r := Put(sk, data);
      if r < 0 {
        return;
      }
      r := FlushOut(sk);
    }

    /** Receives up to `n` bytes behind those in the buffer, whose number does not change yet. */
    method ReceiveAll(sk: Socket, n: nat) returns (r: int, ghost got: seq<byte>)
      requires Valid() && n <= LeftSize()
      modifies `remoteClosed, buf, sk`received, sk`broken, sk`coming
      ensures Contents() == old(Contents()) && sk.received == old(sk.received) + got && old(sk.coming) == got + sk.coming
      ensures |got| == Min(n, |old(sk.coming)|)
      ensures remoteClosed == (old(remoteClosed) || (|got| < n && sk.ending.Closes?))
      ensures if |got| < n && sk.ending.Fails? then r == -1 && sk.broken
        else r == |got| && buf[len..len + r] == got && sk.broken == old(sk.broken)
    {
      var t := 0;
      got := [];
      while t < n
        invariant t == |got| <= n && buf[..len] == old(buf[..len]) && buf[len..len + t] == got
        invariant sk.received == old(sk.received) + got && old(sk.coming) == got + sk.coming
        invariant sk.broken == old(sk.broken) && remoteClosed == old(remoteClosed)
      {
        var o, data := sk.Receive(n - t);
        match o {
          case Failed =>
            return -1, got;
          case WouldBlock =>
            return t, got;
          case Moved(m) =>
            if m == 0 {
              remoteClosed := true;
              return t, got;
            }
            forall i | 0 <= i < m {
              buf[len + t + i] := data[i];
            }
            got, t := got + data, t + m;
        }
      }
      r := t;
    }

    /** How many bytes FeedIn asks for: at most `limit`, or as many as there is room for if that is 0. */
    ghost function Wanted(limit: nat): nat
      requires Valid()
      reads this
    {
      var left := if LeftSize() > 0 then LeftSize() else if buf.Length + BUFIO_INC_SIZ <= max then BUFIO_INC_SIZ else 0;
      if limit == 0 then left else Min(limit, left)
    }

    /** Adds what the socket gives at the end, at most `limit` bytes, or as much as there is room for if that is 0. */
    method FeedIn(sk: Socket, limit: nat) returns (r: int, ghost got: seq<byte>)
      requires Valid()
      modifies this, buf, sk`received, sk`broken, sk`coming
      ensures Valid() && (buf == old(buf) || fresh(buf)) && max == old(max) && (old(buf.Length) <= max ==> buf.Length <= max)
      ensures sk.received == old(sk.received) + got && old(sk.coming) == got + sk.coming
      ensures |got| == if old(valid) then Min(old(Wanted(limit)), |old(sk.coming)|) else 0
      ensures Contents() == old(Contents()) + (if valid then got else [])
      ensures remoteClosed == (old(remoteClosed) || (old(valid) && |got| < old(Wanted(limit)) && sk.ending.Closes?))
      ensures valid == (old(valid) && old(Wanted(limit)) > 0 && !(|got| < old(Wanted(limit)) && sk.ending.Fails?))
      ensures if valid && !remoteClosed then r == len else r == -1
      ensures old(valid) && !valid ==> sk.broken || (old(len) == old(buf.Length) && old(buf.Length) + BUFIO_INC_SIZ > max)
    {
      got := [];
      if !valid {
        return -1, got;
      }
      if LeftSize() == 0 {
        r := SetSize(buf.Length + BUFIO_INC_SIZ);
        if r < 0 {
          valid := false;
          return -1, got;
        }
      }
      r, got := TakeIn(sk, if limit == 0 || limit > LeftSize() then LeftSize() else limit);
    }

    /** FeedIn where there is room. */
    method TakeIn(sk: Socket, most: nat) returns (r: int, ghost got: seq<byte>)
      requires Valid() && most <= LeftSize() && valid
      modifies `len, `valid, `remoteClosed, buf, sk`received, sk`broken, sk`coming
      ensures Valid() && sk.received == old(sk.received) + got && old(sk.coming) == got + sk.coming
      ensures |got| == Min(most, |old(sk.coming)|) && Contents() == old(Contents()) + (if valid then got else [])
      ensures remoteClosed == (old(remoteClosed) || (|got| < most && sk.ending.Closes?))
      ensures valid == !(|got| < most && sk.ending.Fails?) && (!valid ==> sk.broken)
      ensures if valid && !remoteClosed then r == len else r == -1
    {
      r, got := ReceiveAll(sk, most);
      if r < 0 {
        valid := false;
        return;
      }
      assert buf[..len + r] == buf[..len] + buf[len..len + r];
      len := len + r;
      if remoteClosed {
        return -1, got;
      }
      r := len;
    }
  }
}
