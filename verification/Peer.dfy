/** A peer's outstanding requests (peer.cpp): the request queue and the counter that must agree with it. */
module Peers {
  import opened Options
  import opened Sequences
  import opened Pieces
  import opened QueueSlices
  import opened SliceGrid
  import opened SliceShuffle
  import opened RequestQueues
  import opened QueueBounds
  import opened PeerEvents

  /** The queue of pending requests: nothing of it has been sent, and of each of its pieces a slice has been received. */
  ghost predicate Ready(pending: RequestQueue, geo: Geometry)
    reads pending, pending.pieces, pending.order
  {
    && pending.Valid() && pending.isPending && pending.geo == geo && pending.n == 0
    && Neat(geo, pending.lists) && Begun(geo, pending.lists)
  }

  /** What is given to the queue of pending requests keeps it as it should be. */
  lemma {:induction false} GivenReady(q: RequestQueue, dst: RequestQueue, held: seq<seq<Slice>>, from: seq<seq<Slice>>)
    requires Neat(q.geo, held) && Begun(q.geo, held) && Neat(q.geo, from) && dst.isPending
    requires forall j :: 0 <= j < |from| ==> from[j] != []
    ensures Neat(q.geo, q.Given(dst, held, from)) && Begun(q.geo, q.Given(dst, held, from))
    decreases |from|
  {
    if from != [] {
      hide Find, Geometry.Tidy, Geometry.NSlices;
      assert Neat(q.geo, from[1..]);
      if q.Dropped(dst, from[0]) || Has(held, from[0][0].index) {
        GivenReady(q, dst, held, from[1..]);
      } else {
        GivenReady(q, dst, held + [from[0]], from[1..]);
      }
    }
  }

  /** It does not matter which queue gives. */
  lemma {:induction false} GivenSame(q: RequestQueue, dst: RequestQueue, held: seq<seq<Slice>>, from: seq<seq<Slice>>)
    requires q.geo == dst.geo && Filled(held) && Filled(from)
    ensures q.Given(dst, held, from) == dst.Given(dst, held, from)
    decreases |from|
  {
    hide Find, Geometry.NSlices;
    if from != [] {
      if q.Dropped(dst, from[0]) || Find(held, from[0][0].index) < |held| {
        GivenSame(q, dst, held, from[1..]);
      } else {
        GivenSame(q, dst, held + [from[0]], from[1..]);
      }
    }
  }

  /** A slice that has been received is no longer pending. */
  method ForgetSlice(pending: RequestQueue, geo: Geometry, idx: nat, off: nat, len: nat) returns (removed: bool)
    requires Ready(pending, geo)
    modifies pending, pending.pieces`next, pending.pieces`count, pending.pieces`slices, pending.order`next
    ensures Ready(pending, geo) && pending.Within()
    ensures removed <==> Holds(old(pending.lists), idx, off, len)
    ensures pending.lists == if removed then Less(old(pending.lists), idx, off, len) else old(pending.lists)
  {
    hide RequestQueue.Linked, RequestQueue.Valid, Find, FindIn, Flat, Neat, Begun, Removed;
    pending.LinkedNow();
    ghost var lists := pending.lists;
    if Holds(lists, idx, off, len) {
      ghost var i := Find(lists, idx);
      FindIs(lists, i);
      NeatRemoved(geo, lists, i, FindIn(lists[i], off, len));
      BegunRemoved(geo, lists, i, FindIn(lists[i], off, len));
    }
    removed := pending.Remove(idx, off, len);
  }

  /** A piece that is complete, or has failed, is no longer pending. */
  method ForgetPiece(pending: RequestQueue, geo: Geometry, idx: nat) returns (removed: bool)
    requires Ready(pending, geo)
    modifies pending, pending.pieces`next
    ensures Ready(pending, geo) && pending.Within()
    ensures removed <==> Has(old(pending.lists), idx)
    ensures pending.lists ==
      if removed then Without(old(pending.lists), Find(old(pending.lists), idx)) else old(pending.lists)
  {
    hide RequestQueue.Linked, RequestQueue.Valid, Find, Flat, Neat, Begun;
    pending.LinkedNow();
    ghost var lists := pending.lists;
    if Has(lists, idx) {
      ghost var i := Find(lists, idx);
      FindIs(lists, i);
      NeatWithout(geo, lists, i);
      BegunRemoved(geo, lists, i, 0);
    }
    removed := pending.Delete(idx);
  }

  lemma Again(geo: Geometry, lists: seq<seq<Slice>>, s: Slice, like: Slice)
    requires Shape(lists) && Neat(geo, lists)
    requires like.index == s.index && Matches(like, s.offset, s.length) && exists k: nat :: geo.Cell(like, k)
    requires forall i, t :: 0 <= i < |lists| && t in lists[i] && t.index == s.index ==> t.offset != s.offset
    ensures Neat(geo, Added(lists, s)) && !Holds(lists, s.index, s.offset, s.length)
  {
    hide PieceLen, NPieces;
    var k: nat :| geo.Cell(like, k);
    NeatAdded(geo, lists, s, like, k);
    var i := Find(lists, s.index);
    if i < |lists| {
      FindIs(lists, i);
      forall j | 0 <= j < |lists[i]| ensures !Matches(lists[i][j], s.offset, s.length) {
        assert lists[i][j] in lists[i];
      }
    }
  }

  /** Once a slice is taken out, its piece holds nothing else at its offset. */
  lemma TakenMissing(geo: Geometry, lists: seq<seq<Slice>>, i: nat, k: nat)
    requires Shape(lists) && Neat(geo, lists) && i < |lists| && k < |lists[i]|
    ensures exists c: nat :: geo.Cell(lists[i][k], c)
    ensures var after := Removed(lists, i, k);
      forall j, t :: 0 <= j < |after| && t in after[j] && t.index == lists[i][k].index ==> t.offset != lists[i][k].offset
  {
    hide Geometry.Cell;
    var s, after := lists[i][k], Removed(lists, i, k);
    assert s in lists[i];
    FindIs(lists, i);
    forall j, t: Slice | 0 <= j < |after| && t in after[j] ensures t.index == s.index ==> t.offset != s.offset {
      if |lists[i]| == 1 {
        var m := if j < i then j else j + 1;
        FindIs(lists, m);
      } else if j == i {
        var m :| 0 <= m < |after[i]| && after[i][m] == t;
        assert t == lists[i][if m < k then m else m + 1];
      } else {
        FindIs(lists, j);
      }
    }
  }

  lemma Reordered(geo: Geometry, list: seq<Slice>, after: seq<Slice>)
    requires geo.Tidy(list) && list != [] && Distinct(list) && Permutation(list, after)
    requires forall k :: 0 <= k < |list| ==> list[k].index == list[0].index
    ensures geo.Tidy(after) && after != [] && after[0].index == list[0].index
  {
    hide Geometry.Tidy;
    PermutationFacts(list, after);
    TidyOrder(geo, list, after);
    assert after[0] in list;
  }

  /** The first slice of a piece goes to its end. */
  lemma FirstMoved(geo: Geometry, lists: seq<seq<Slice>>, idx: nat)
    requires Shape(lists) && Neat(geo, lists) && Has(lists, idx)
    ensures var i := Find(lists, idx);
      var s := lists[i][0];
      var after := lists[i := Without(lists[i], 0) + [s]];
      && FindIn(lists[i], s.offset, s.length) == 0
      && Neat(geo, after) && |Flat(after)| == |Flat(lists)|
      && Find(after, idx) == i && Start(after, i) == Start(lists, i)
  {
    hide Flat, Find, Geometry.Tidy;
    var i := Find(lists, idx);
    var list := lists[i];
    var moved := Without(list, 0) + [list[0]];
    var after := lists[i := moved];
    FindIs(lists, i);
    WithoutDistinct(list, 0);
    assert after[..i] == lists[..i] && SameElements(list, moved) && Distinct(moved);
    TidyOrder(geo, list, moved);
    NeatUpdate(geo, lists, i, moved);
    FlatUpdate(lists, i, moved);
    FlatSplit(lists, i);
    assert moved[0] in list;
    ShapeUpdate(lists, i, moved);
    FindIs(after, i);
  }

  class Peer {
    const queue: RequestQueue
    /** How many requests should be outstanding, and how many are. */
    var reqSend: Count
    var reqOut: nat
    var standby: bool
    var localInterested: bool
    var remoteChoked: bool
    /** How many more messages go out before the connection fails. */
    var credit: nat
    /** Whether the counter has ever been taken for one that has gone below zero. */
    ghost var reset: bool

    ghost function Mine(): Account
      reads this, queue`lists, queue`n
    {
      Account(queue.lists, queue.n, reqOut, reqSend, standby, localInterested, remoteChoked, reset, credit)
    }

    ghost function Now(pending: RequestQueue): Moment
      reads this, queue`lists, queue`n, pending`lists
    {
      Moment(Mine(), pending.lists)
    }

    /** All but the counter. */
    ghost predicate Loose()
      reads queue, queue.pieces, queue.order
    {
      && queue.Valid() && !queue.isPending
      && Neat(queue.geo, queue.lists)
      && Sized(queue.geo) && |queue.order| <= Peak(queue.geo)
    }

    /** The counter is the number of requests that have been sent and not answered, as long as it has not been reset. */
    ghost predicate Valid()
      reads this`reqOut, this`reset, queue, queue.pieces, queue.order
    {
      Loose() && reqOut < 0x1_0000_0000 && (!reset ==> reqOut == queue.n)
    }

    /** Not more are outstanding than the check for an underflow allows, nor will be before something is received. */
    ghost predicate Tame()
      reads this`reqSend, queue`n, queue`order
    {
      && queue.n <= MaxReqQueueLength(queue.geo)
      && (|queue.order| > MaxReqQueueLength(queue.geo) ==> reqSend <= queue.n)
    }

    /** As Tame, or so few are outstanding that some may be sent. */
    ghost predicate Tamable()
      reads this`reqSend, this`standby, queue`n, queue`order
    {
      && queue.n <= MaxReqQueueLength(queue.geo)
      && (|queue.order| > MaxReqQueueLength(queue.geo) ==>
            reqSend <= queue.n || (queue.n + 5 <= MaxReqQueueLength(queue.geo) && !standby))
    }

    /** The counter is right and within the limit, and a peer on standby has nothing queued. */
    ghost predicate MayAsk()
      reads this`reset, this`standby, queue`n, queue`order
    {
      !reset && queue.n <= MaxReqQueueLength(queue.geo) && (standby ==> queue.order == [])
    }

    /** More may be asked for, or the peer is tame. */
    ghost predicate Onward()
      reads this`reqOut, this`reqSend, this`standby, this`reset, queue`n, queue`order
    {
      if reqOut < reqSend && !standby then MayAsk() else Tame()
    }

    /** The counter has never been reset, and no request on its way will make it so. */
    ghost predicate Calm()
      reads this`reqSend, this`reset, queue`n, queue`order
    {
      !reset && Tame()
    }

    constructor (geo: Geometry)
      requires Sized(geo)
      ensures Valid() && Calm() && fresh(queue) && queue.geo == geo && queue.pieces == [] && queue.order == []
      ensures Mine() == NEWCOMER
    {
      queue := new RequestQueue(geo, false);
      reqSend, reqOut, standby := 5, 0, false;
      localInterested, remoteChoked := false, true;
      credit, reset := 0, false;
    }

    lemma Opened()
      requires Loose()
      ensures queue.Valid() && queue.Linked() && Neat(queue.geo, queue.lists) && !queue.isPending
      ensures |queue.order| <= Peak(queue.geo) <= 2 * WholeSlices(queue.geo) < 0x1_0000_0000 && Sized(queue.geo)
      ensures queue.n <= |queue.order| && queue.send == At(queue.order, queue.n)
    {
      PeakMost(queue.geo);
    }

    lemma Closed()
      requires queue.Valid() && !queue.isPending && Neat(queue.geo, queue.lists)
      requires Sized(queue.geo) && |queue.order| <= Peak(queue.geo)
      ensures Loose()
    {
    }

    /** Until it is reset the counter is the number of requests outstanding, and within what the queue may hold. */
    lemma Exactly()
      requires Valid()
      ensures !reset ==> reqOut == SentCount(queue.order)
      ensures SentCount(queue.order) == queue.n
      ensures SentCount(queue.order) <= |queue.order| <= Peak(queue.geo)
      ensures forall i :: 0 <= i < |queue.order| ==> (queue.order[i].sent <==> i < SentCount(queue.order))
      ensures queue.send == At(queue.order, SentCount(queue.order))
    {
      hide RequestQueue.Linked;
      SentCountPrefix(queue.order, queue.n);
    }

    /** Sends the next request; false if the connection fails. */
    method SendOne() returns (ok: bool)
      requires Valid() && queue.n < |queue.order|
      modifies this`reqOut, this`credit, queue`send, queue`n, queue.order`sent, queue.order`reqtime
      ensures Valid() && ok == (old(credit) > 0) && credit == (if ok then old(credit) - 1 else 0)
      ensures reqOut == (if ok then Wrap(old(reqOut) + 1) else old(reqOut)) && queue.n == old(queue.n) + if ok then 1 else 0
      ensures queue.lists == old(queue.lists)
    {
      hide RequestQueue.Linked, RequestQueue.Valid, Neat, Sized, Peak;
      Opened();
      ok := Transmit();
      if ok {
        var timestamp: nat := *;
        queue.SentNext(timestamp);
        reqOut := Wrap(reqOut + 1);
      }
    }

    /** The check for an underflow. */
    method CheckCount()
      modifies this`reqOut, this`reset
      ensures Mine() == Checked(queue.geo, old(Mine()))
    {
      if reqOut > MaxReqQueueLength(queue.geo) {
        reqOut, reset := 0, true;
      }
    }

    /** Sends up to five requests; false if the connection fails. */
    method SendBatch() returns (ok: bool)
      requires Valid()
      modifies this`reqOut, this`credit, this`reset, queue`send, queue`n, queue.order`sent, queue.order`reqtime
      ensures Valid() && Mine() == Batched(Checked(queue.geo, old(Mine())))
      ensures ok == (Portion(Checked(queue.geo, old(Mine()))) <= old(credit))
      ensures old(!reset && Tamable()) ==> !reset && Onward()
    {
      hide Valid, Loose, Wrap, Peak, Sized, MaxReqQueueLength, Flat, RequestQueue.Linked, RequestQueue.Valid, Neat;
      Restate();
      Opened();
      OrderNow();
      CheckCount();
      Exact();
      ok := SendSome();
      Restate();
      Opened();
    }

    lemma OrderNow()
      requires Valid()
      ensures queue.order == Flat(queue.lists) && (queue.send == null <==> queue.n == |queue.order|)
    {
      hide RequestQueue.Linked;
      queue.ValidParts();
    }

    /** The requests of a batch. */
    method SendSome() returns (ok: bool)
      requires Valid()
      modifies this`reqOut, this`credit, queue`send, queue`n, queue.order`sent, queue.order`reqtime
      ensures Valid() && Mine() == Batched(old(Mine())) && ok == (Portion(old(Mine())) <= old(credit))
    {
      hide Valid, Loose, Wrap, Peak, Sized, MaxReqQueueLength, Flat, RequestQueue.Linked, RequestQueue.Valid, Neat;
      Restate();
      Opened();
      OrderNow();
      ok := true;
      if reqOut < reqSend && queue.send != null {
        var i := 0;
        while reqOut < reqSend && i < 5
          invariant Valid() && ok && i <= 5 && queue.lists == old(queue.lists)
          invariant queue.n == old(queue.n) + i < |queue.order|
          invariant reqOut == old(reqOut) + i <= reqSend && credit == old(credit) - i
          decreases 5 - i
        {
          Restate();
          Opened();
          WrapNext(reqOut);
          ok := SendOne();
          if !ok {
            return;
          }
          i := i + 1;
          Restate();
          Opened();
          OrderNow();
          if queue.send == null {
            break;
          }
        }
      }
    }

    static lemma WrapNext(n: nat)
      ensures n + 1 < 0x1_0000_0000 ==> Wrap(n + 1) == n + 1
    {
    }

    /** One request less is outstanding; a count that this leaves beyond what there can be is reset. */
    method Uncount()
      modifies this`reqOut, this`reset
      ensures Mine() == Checked(queue.geo, old(Mine()).(out := Wrap(old(reqOut) - 1)))
    {
      reqOut := Wrap(reqOut - 1);
      CheckCount();
    }

    /** Cancels a request; false if the connection fails. */
    method CancelOne() returns (ok: bool)
      modifies this`reqOut, this`credit, this`reset
      ensures ok == (old(credit) > 0)
      ensures Mine() == if ok then Cancelled(queue.geo, old(Mine()), 1) else old(Mine())
    {
      hide MaxReqQueueLength, Wrap;
      ok := Transmit();
      if ok {
        Uncount();
      }
    }

    /** Cancels a slice of piece `i` if it has been sent, and goes on to what follows it. */
    method CancelStep(slice: Slice, ghost i: nat, ghost j: nat) returns (ok: bool, sent: bool, next: Slice?)
      requires queue.Valid() && i < |queue.lists| && j < |queue.lists[i]| && slice == queue.lists[i][j]
      requires Start(queue.lists, i) + j < |queue.order|
      requires slice.sent <==> Start(queue.lists, i) + j < queue.n
      modifies this`reqOut, this`credit, this`reset
      ensures sent <==> Start(queue.lists, i) + j < queue.n
      ensures ok == (sent ==> old(credit) > 0) && (ok ==> next == At(queue.order, Start(queue.lists, i) + j + 1))
      ensures Mine() == if sent && ok then Cancelled(queue.geo, old(Mine()), 1) else old(Mine())
    {
      hide RequestQueue.Linked, SentPrefix, Flat, Start, Cancelled;
      ok, next, sent := true, null, slice.sent;
      if sent {
        ok := CancelOne();
      }
      if ok {
        next := queue.Following(slice, i, j);
      }
    }

    /** Cancels what has been sent of piece `i`; false if the connection fails. The messages name a piece number that is
        not set before the first slice has been gone past. */
    method CancelSlices(piece: nat, ghost i: nat) returns (ok: bool, names: seq<Option<nat>>)
      requires Valid() && i < |queue.lists| && piece == queue.lists[i][0].index
      modifies this`reqOut, this`credit, this`reset
      ensures Start(queue.lists, i) <= Start(queue.lists, i + 1) <= |queue.order|
      ensures Named(names, piece) && (names != [] <==> queue.n > Start(queue.lists, i))
      ensures var sent := SentIn(queue.n, Start(queue.lists, i), Start(queue.lists, i + 1));
        && ok == (sent <= old(credit)) && (ok ==> |names| == sent)
        && Mine() == Cancelled(queue.geo, old(Mine()), if ok then sent else old(credit))
    {
      hide Loose, RequestQueue.Linked, RequestQueue.Valid, SentPrefix, Find, Flat, Neat, Start, Cancelled, Sized;
      hide Peak, Named;
      Opened();
      queue.LinkedNow();
      queue.ValidParts();
      NamedNone([], piece);
      CancelledNone(queue.geo, Mine());
      ghost var lists, f, n := queue.lists, queue.order, queue.n;
      ghost var a, b, j := Start(lists, i), Start(lists, i + 1), 0;
      FlatSplit(lists, i);
      ok, names := true, [];
      var idx: Option<nat> := None;
      var slice := queue.PeekPiece(piece, i);
      while slice != null && slice.index == piece
        invariant a + j <= b && slice == At(f, a + j)
        invariant (j == 0 ==> idx == None) && (j > 0 && slice != null ==> idx == Some(slice.index))
        invariant ok && Named(names, piece) && |names| == SentIn(n, a, a + j) <= old(credit)
        invariant Mine() == Cancelled(queue.geo, old(Mine()), |names|)
        decreases b - a - j
      {
        SliceThere(i, j);
        var sent;
        ok, sent, slice := CancelStep(slice, i, j);
        if sent {
          NamedNext(names, piece, idx);
          if ok {
            CancelledOne(queue.geo, old(Mine()), |names|);
          }
          names := names + [idx];
        }
        if !ok {
          return;
        }
        if slice != null {
          idx := Some(slice.index);
        }
        j := j + 1;
      }
      if a + j < |f| {
        SliceThere(i, j);
      }
    }

    /** What comes `j` places after the start of piece `i`. */
    lemma SliceThere(i: nat, j: nat)
      requires queue.Valid() && i < |queue.lists| && Start(queue.lists, i) + j < |queue.order|
      ensures var a, m := Start(queue.lists, i), Start(queue.lists, i) + j;
        && (queue.order[m].index == queue.lists[i][0].index <==> m < Start(queue.lists, i + 1))
        && (m < Start(queue.lists, i + 1) ==> j < |queue.lists[i]| && queue.order[m] == queue.lists[i][j])
        && (queue.order[m].sent <==> m < queue.n)
    {
      hide RequestQueue.Linked, Flat, Start;
      queue.LinkedNow();
      queue.ValidParts();
      var a, b := Start(queue.lists, i), Start(queue.lists, i + 1);
      FlatSplit(queue.lists, i);
      IndexPlace(queue.lists, a + j, i);
      if a + j < b {
        assert queue.order[a + j] == queue.order[a..b][j];
      }
    }

    /** Drops a piece of which everything that has been sent has been cancelled. */
    method DropIt(piece: nat, ghost i: nat)
      requires Loose() && reqOut < 0x1_0000_0000 && i == Find(queue.lists, piece) < |queue.lists|
      requires !reset ==> reqOut == queue.n - SentIn(queue.n, Start(queue.lists, i), Start(queue.lists, i + 1))
      modifies queue, queue.pieces`next
      ensures Valid() && queue.Lost(old(queue.lists), old(queue.n), i) && queue.Within()
      ensures |queue.order| < |old(queue.order)| && queue.n <= old(queue.n)
      ensures queue.head == null <==> queue.lists == []
    {
      hide Loose, RequestQueue.Linked, RequestQueue.Valid, Find, Flat, Start, Neat, MaxReqQueueLength, Sized, Peak;
      Opened();
      queue.LinkedNow();
      queue.ValidParts();
      NeatWithout(queue.geo, queue.lists, i);
      FlatUpdate(queue.lists, i, []);
      FlatSplit(queue.lists, i);
      var dropped := queue.Delete(piece);
      queue.ValidParts();
      queue.WhenEmpty();
      Closed();
    }

    static lemma NamedNext(names: seq<Option<nat>>, piece: nat, idx: Option<nat>)
      requires Named(names, piece) && idx == if names == [] then None else Some(piece)
      ensures Named(names + [idx], piece)
    {
    }

    static lemma NamedNone(names: seq<Option<nat>>, piece: nat)
      ensures names == [] ==> Named(names, piece)
      ensures Named(names, piece) ==> (None in names <==> names != [])
    {
      if names != [] {
        assert names[0] in names;
      }
    }

    /** The first of the messages names no piece, the others `piece`. */
    static ghost predicate Named(names: seq<Option<nat>>, piece: nat) {
      forall k :: 0 <= k < |names| ==> names[k] == if k == 0 then None else Some(piece)
    }

    /** Cancels what has been sent of a piece, and drops the piece; negative if the connection fails. A message names a
        piece number that has not been set exactly if the first slice of the piece has been sent. */
    method CancelPiece(piece: nat) returns (result: int, names: seq<Option<nat>>)
      requires Valid()
      modifies this`reqOut, this`standby, this`credit, this`reset, queue, queue.pieces`next
      ensures Loose() && (result >= 0 ==> Valid()) && Counted(queue.geo, old(Mine()), Mine())
      ensures result == 0 <==> !Has(old(queue.lists), piece)
      ensures result == 0 ==> unchanged(this) && unchanged(queue) && names == []
      ensures result > 0 ==> queue.Lost(old(queue.lists), old(queue.n), Find(old(queue.lists), piece))
      ensures result < 0 ==> unchanged(queue)
      ensures PieceDropped(queue.geo, piece, old(Mine()), Mine(), result >= 0)
      ensures queue.Within() && |queue.order| <= |old(queue.order)| && queue.n <= old(queue.n)
      ensures result > 0 ==> |queue.order| < |old(queue.order)|
      ensures Named(names, piece) && (result > 0 ==> |names| == old(credit) - credit)
      ensures None in names <==>
        Has(old(queue.lists), piece) && old(queue.n) > Start(old(queue.lists), Find(old(queue.lists), piece))
    {
      hide Loose, RequestQueue.Linked, RequestQueue.Valid, Find, Flat, Start, Neat, MaxReqQueueLength, Sized, Peak;
      hide Named, Cut, SentIn;
      hide Cancelled;
      Opened();
      queue.LinkedNow();
      queue.ValidParts();
      names := [];
      NamedNone(names, piece);
      var first, _, i := queue.FindPiece(piece);
      if first == null {
        return 0, names;
      }
      result, names := CancelAll(piece, i);
      NamedNone(names, piece);
    }

    /** What CancelPiece does with piece `i`, which there is. */
    method CancelAll(piece: nat, ghost i: nat) returns (result: int, names: seq<Option<nat>>)
      requires Valid() && i == Find(queue.lists, piece) < |queue.lists|
      modifies this`reqOut, this`standby, this`credit, this`reset, queue, queue.pieces`next
      ensures Loose() && (result == 1 || result == -1) && (result > 0 ==> Valid()) && Counted(queue.geo, old(Mine()), Mine())
      ensures result > 0 ==>
        queue.Lost(old(queue.lists), old(queue.n), i) && |queue.order| < |old(queue.order)| && queue.n <= old(queue.n)
      ensures result < 0 ==> unchanged(queue)
      ensures PieceDropped(queue.geo, piece, old(Mine()), Mine(), result > 0) && queue.Within()
      ensures Named(names, piece) && (result > 0 ==> |names| == old(credit) - credit)
      ensures names != [] <==> old(queue.n) > Start(old(queue.lists), i)
    {
      hide Loose, RequestQueue.Linked, RequestQueue.Valid, Find, Flat, Start, Neat, MaxReqQueueLength, Sized, Peak, Named, Cut;
      hide SentIn, Cancelled;
      Opened();
      queue.LinkedNow();
      ghost var start, sent := Mine(), SentIn(queue.n, Start(queue.lists, i), Start(queue.lists, i + 1));
      var ok;
      ok, names := CancelSlices(piece, i);
      SentInMost(queue.n, Start(queue.lists, i), Start(queue.lists, i + 1));
      CancelledRight(queue.geo, start, if ok then sent else start.credit);
      if !ok {
        return -1, names;
      }
      DropIt(piece, i);
      var empty := queue.head == null;
      if empty {
        standby := false;
      }
      result := 1;
    }

    /** Cancels all that has been sent; negative if the connection fails. The queue is left as it is. */
    method CancelRequest() returns (result: int)
      requires Valid()
      modifies this`reqOut, this`credit, this`reset
      ensures Loose() && reqOut < 0x1_0000_0000 && Counted(queue.geo, old(Mine()), Mine())
      ensures result == (if queue.n <= old(credit) then 0 else -1) && (result == 0 && !reset ==> reqOut == 0)
      ensures Mine() == Cancelled(queue.geo, old(Mine()), Min(queue.n, old(credit)))
    {
      hide Loose, RequestQueue.Linked, Find, Flat, Neat, Start, MaxReqQueueLength, Sized, Peak, Cancelled;
      Opened();
      queue.ValidParts();
      CancelledNone(queue.geo, Mine());
      result := 0;
      ghost var f, n, j: nat := queue.order, queue.n, 0;
      var slice := queue.Peek();
      while slice != null
        invariant j <= n && j <= old(credit) && slice == At(f, j)
        invariant result == 0 && Mine() == Cancelled(queue.geo, old(Mine()), j)
        decreases |f| - j
      {
        if !slice.sent {
          break;
        }
        var ok := CancelOne();
        if !ok {
          CancelledRight(queue.geo, old(Mine()), j);
          return -1;
        }
        CancelledOne(queue.geo, old(Mine()), j);
        ghost var i, k := Locate(queue.lists, j);
        slice := queue.Following(slice, i, k);
        j := j + 1;
      }
      CancelledRight(queue.geo, old(Mine()), j);
    }

    /** Gives up all requests, to be made again by some peer. */
    method PutPending(pending: RequestQueue)
      requires Loose() && Ready(pending, queue.geo) && queue.Apart(pending)
      modifies this`reqOut, queue, pending, queue.pieces`next, pending.pieces`next, queue.order`sent
      ensures Valid() && Ready(pending, queue.geo) && queue.Apart(pending) && queue.From(pending)
      ensures queue.lists == [] && queue.n == 0 && reqOut == 0
      ensures pending.lists == queue.Given(pending, old(pending.lists), old(queue.lists))
    {
      hide Loose, RequestQueue.Linked, RequestQueue.Valid, Begun, Neat, RequestQueue.Apart;
      Opened();
      queue.WhenEmpty();
      if queue.head != null {
        GivenReady(queue, pending, pending.lists, queue.lists);
        var all := queue.TransferAll(pending);
        queue.WhenEmpty();
        NeatNone(queue.geo);
      }
      reqOut := 0;
      Closed();
    }

    /** Tells the peer that it has something to offer; negative if the connection fails. */
    method Interested() returns (result: int)
      modifies this`standby, this`localInterested, this`credit
      ensures !standby && localInterested && (result == 0 || result == -1)
      ensures if old(localInterested) then result == 0 && credit == old(credit)
        else (result == 0 <==> old(credit) > 0) && credit == if result == 0 then old(credit) - 1 else 0
    {
      standby := false;
      if localInterested {
        return 0;
      }
      localInterested := true;
      var ok := Transmit();
      result := if ok then 0 else -1;
    }

    /** The peer answers requests from now on. */
    method Unchoked()
      modifies this`remoteChoked, this`standby
      ensures !remoteChoked && !standby
    {
      remoteChoked, standby := false, false;
    }

    /** Tells the peer that it has nothing to offer; negative if the connection fails. */
    method NotInterested() returns (result: int)
      requires Valid()
      modifies this`localInterested, this`reqOut, this`credit, this`reset, queue
      ensures Loose() && (result == 0 || result == -1) && (result == 0 ==> Valid())
      ensures Deserted(queue.geo, old(Mine()), Mine(), result == 0) && Counted(queue.geo, old(Mine()), Mine())
      ensures queue.Within() && (!old(localInterested) ==> unchanged(this) && unchanged(queue))
    {
      hide Loose, RequestQueue.Linked, Neat, MaxReqQueueLength, Sized, Peak, Cancelled;
      Opened();
      if !localInterested {
        return 0;
      }
      localInterested := false;
      CancelledNone(queue.geo, Mine());
      queue.WhenEmpty();
      if queue.head != null {
        result := CancelRequest();
        if result < 0 {
          return;
        }
        queue.Empty();
        queue.WhenEmpty();
        NeatNone(queue.geo);
        Closed();
      }
      var ok := Transmit();
      result := if ok then 0 else -1;
    }

    /** Drops a slice from the queue. */
    method DropSlice(idx: nat, off: nat, len: nat) returns (removed: bool)
      requires Loose()
      modifies queue, queue.pieces`next, queue.pieces`count, queue.pieces`slices, queue.order`next
      ensures Loose() && queue.Within()
      ensures removed <==> Holds(old(queue.lists), idx, off, len)
      ensures !removed ==> queue.lists == old(queue.lists) && queue.n == old(queue.n)
      ensures removed ==> queue.lists == Less(old(queue.lists), idx, off, len) && |queue.order| == |old(queue.order)| - 1
      ensures !removed ==> queue.order == old(queue.order)
      ensures removed ==> queue.n == old(queue.n) - if Slot(old(queue.lists), idx, off, len) < old(queue.n) then 1 else 0
    {
      hide Loose, RequestQueue.Linked, RequestQueue.Valid, Find, FindIn, Flat, Neat, Removed, Sized, Peak;
      Opened();
      queue.WhenEmpty();
      if Holds(queue.lists, idx, off, len) {
        NeatRemoved(queue.geo, queue.lists, Find(queue.lists, idx), FindIn(queue.lists[Find(queue.lists, idx)], off, len));
      }
      removed := queue.Remove(idx, off, len);
      Closed();
    }

    /** Cancels the request for a slice if it has been sent; false if the connection fails. */
    method CancelSent(idx: nat, off: nat, len: nat) returns (ok: bool)
      requires Valid()
      modifies this`reqOut, this`credit, this`reset
      ensures Loose() && reqOut < 0x1_0000_0000 && Counted(queue.geo, old(Mine()), Mine())
      ensures ok == !(AskedFor(old(Mine()), idx, off, len) && old(credit) == 0)
      ensures if ok && AskedFor(old(Mine()), idx, off, len) then
          Mine() == Cancelled(queue.geo, old(Mine()), 1) && (!reset ==> reqOut == queue.n - 1)
        else
          Mine() == old(Mine())
    {
      hide Loose, RequestQueue.Linked, RequestQueue.Valid, Find, FindIn, Flat, Neat, Slot, Holds, Sized, Peak;
      hide MaxReqQueueLength;
      hide Cancelled;
      Opened();
      var sent := queue.IsSent(idx, off, len);
      ok := true;
      if sent {
        ok := CancelOne();
        if ok {
          CancelledRight(queue.geo, old(Mine()), 1);
        }
      }
    }

    /** Cancels the request for a slice and drops it; negative if the connection fails. */
    method CancelSliceRequest(idx: nat, off: nat, len: nat) returns (result: int)
      requires Valid()
      modifies this`reqOut, this`standby, this`credit, this`reset
      modifies queue, queue.pieces`next, queue.pieces`count, queue.pieces`slices, queue.order`next
      ensures Valid() && queue.Within() && Counted(queue.geo, old(Mine()), Mine())
      ensures SliceDropped(queue.geo, idx, off, len, old(Mine()), Mine(), result >= 0)
      ensures result > 0 ==> |queue.order| == |old(queue.order)| - 1 && queue.n <= old(queue.n)
      ensures result <= 0 ==> queue.order == old(queue.order) && queue.n == old(queue.n)
      ensures result > 0 ==> Holds(old(queue.lists), idx, off, len)
      ensures result == 0 ==> !Holds(old(queue.lists), idx, off, len)
    {
      hide Loose, RequestQueue.Linked, RequestQueue.Valid, Find, FindIn, Flat, Neat, Less, Slot, Holds, Sized, Peak;
      hide MaxReqQueueLength, Wrap;
      hide Cancelled;
      var ok := CancelSent(idx, off, len);
      if !ok {
        return -1;
      }
      var removed := DropSlice(idx, off, len);
      if !removed {
        return 0;
      }
      Opened();
      queue.WhenEmpty();
      if queue.head == null {
        standby := false;
      }
      result := 1;
    }

    /** Nothing is queued at offset `off` of piece `idx`, where a slice like `like` belongs. */
    ghost predicate Missing(idx: nat, off: nat, len: nat, like: Slice)
      reads queue`lists
    {
      && like.index == idx && Matches(like, off, len) && (exists k: nat :: queue.geo.Cell(like, k))
      && (forall i, t :: 0 <= i < |queue.lists| && t in queue.lists[i] && t.index == idx ==> t.offset != off)
    }

    /** Requests a slice again: at once, if the cursor is past it. */
    method RequestSlice(idx: nat, off: nat, len: nat, ghost like: Slice) returns (ghost s: Slice)
      requires Valid() && |queue.order| < Peak(queue.geo) && Missing(idx, off, len, like)
      modifies this`reqOut, queue, queue.pieces`next, queue.pieces`count
      modifies queue.order`next, queue.order`sent, queue.order`reqtime
      ensures Valid() && queue.lists == Added(old(queue.lists), s) && |queue.order| == |old(queue.order)| + 1
      ensures s.index == idx && Matches(s, off, len) && fresh(s) && queue.Grown()
      ensures s.sent <==> old(queue.n) >= Place(old(queue.lists), idx)
      ensures reqOut == if s.sent then Wrap(old(reqOut) + 1) else old(reqOut)
      ensures queue.n == old(queue.n) + if s.sent then 1 else 0
    {
      hide Loose, RequestQueue.Valid, Added, Place, Missing, RequestQueue.Grown;
      var resend;
      resend, s := Requeued(idx, off, len, like);
      Opened();
      if resend {
        reqOut := Wrap(reqOut + 1);
      }
    }

    /** Puts the slice back into the queue, sent if the cursor is past it. */
    method Requeued(idx: nat, off: nat, len: nat, ghost like: Slice) returns (resend: bool, ghost s: Slice)
      requires Loose() && |queue.order| < Peak(queue.geo) && Missing(idx, off, len, like)
      modifies queue, queue.pieces`next, queue.pieces`count, queue.order`next, queue.order`sent, queue.order`reqtime
      ensures Loose() && queue.lists == Added(old(queue.lists), s) && |queue.order| == |old(queue.order)| + 1
      ensures s.index == idx && Matches(s, off, len) && fresh(s) && queue.Grown()
      ensures resend == s.sent == (old(queue.n) >= Place(old(queue.lists), idx))
      ensures queue.n == old(queue.n) + if resend then 1 else 0
    {
      hide Loose, RequestQueue.Linked, RequestQueue.Valid, RequestQueue.Owing, Find, FindIn, Flat, Neat, Added, Slot;
      hide Place;
      hide Peak, Sized, SentPrefix;
      Opened();
      queue.LinkedNow();
      queue.ValidParts();
      ghost var lists, f, place := queue.lists, queue.order, Place(queue.lists, idx);
      var r;
      r, s := queue.Requeue(idx, off, len);
      InsertedAt(f, place, s, queue.order);
      Again(queue.geo, lists, s, like);
      resend := r == 1;
      if resend {
        queue.OwingParts(place);
        SlotAdded(lists, s);
        queue.SentSlice(0, idx, off, len);
      }
      Closed();
      SentThere(place);
    }

    lemma SentThere(k: nat)
      requires queue.Valid() && k < |queue.order|
      ensures queue.order[k].sent <==> k < queue.n
    {
      hide RequestQueue.Linked;
    }

    static lemma InsertedAt(f: seq<Slice>, p: nat, s: Slice, g: seq<Slice>)
      requires p <= |f| && g == f[..p] + [s] + f[p..]
      ensures |g| == |f| + 1 && g[p] == s
    {
    }

    /** A requested slice arrived and could not be saved: it is requested again. */
    method Repeat(idx: nat, off: nat, len: nat)
      requires Valid() && AskedFor(Mine(), idx, off, len)
      modifies this`reqOut, queue, queue.pieces`next, queue.pieces`count, queue.pieces`slices
      modifies queue.order`next, queue.order`sent, queue.order`reqtime
      ensures queue.Grown() && Valid() && |queue.order| == |old(queue.order)| && queue.n <= old(queue.n)
      ensures Regained(Less(old(queue.lists), idx, off, len), idx, off, len, queue.lists)
      ensures if Place(Less(old(queue.lists), idx, off, len), idx) < old(queue.n) then
          reqOut == old(reqOut) && queue.n == old(queue.n)
        else
          reqOut == Wrap(old(reqOut) - 1) && queue.n == old(queue.n) - 1
    {
      hide Loose, RequestQueue.Linked, RequestQueue.Valid, Added, Less, Place, Missing, MaxReqQueueLength, Regained;
      hide Holds, Slot;
      hide Flat, Find, Neat, Wrap, Sized, Peak, At;
      Opened();
      queue.WhenEmpty();
      RestFilled(queue.lists, idx, off, len);
      ghost var rest := Less(queue.lists, idx, off, len);
      ghost var like := TakeBack(idx, off, len);
      ghost var s := RequestSlice(idx, off, len, like);
      RegainedBy(rest, s);
      WrapBack(old(reqOut));
    }

    static lemma WrapBack(n: nat)
      requires n < 0x1_0000_0000
      ensures Wrap(Wrap(n - 1) + 1) == n
    {
    }

    /** The first half of that: the slice is not queued any more. */
    method TakeBack(idx: nat, off: nat, len: nat) returns (ghost like: Slice)
      requires Valid() && AskedFor(Mine(), idx, off, len)
      modifies this`reqOut, queue, queue.pieces`next, queue.pieces`count, queue.pieces`slices, queue.order`next
      ensures Valid() && queue.Within() && queue.n == old(queue.n) - 1 && queue.lists == Less(old(queue.lists), idx, off, len)
      ensures |queue.order| == |old(queue.order)| - 1 < Peak(queue.geo) && Missing(idx, off, len, like)
      ensures reqOut == Wrap(old(reqOut) - 1)
    {
      hide Loose, RequestQueue.Linked, RequestQueue.Valid, Find, FindIn, Flat, Neat, Removed, Slot, Sized;
      hide MaxReqQueueLength, Peak, At;
      Opened();
      queue.LinkedNow();
      ghost var lists := queue.lists;
      ghost var i := Find(lists, idx);
      ghost var k := FindIn(lists[i], off, len);
      FindIs(lists, i);
      TakenMissing(queue.geo, lists, i, k);
      like := lists[i][k];
      var removed := DropSlice(idx, off, len);
      reqOut := Wrap(reqOut - 1);
      Opened();
    }

    /** A slice arrives, and is saved or not. */
    method PieceDeliver(idx: nat, off: nat, len: nat, accept: bool, saved: bool, target: Count)
      requires Valid()
      modifies this`reqOut, this`reqSend, this`standby
      modifies queue, queue.pieces`next, queue.pieces`count, queue.pieces`slices
      modifies queue.order`next, queue.order`sent, queue.order`reqtime
      ensures queue.Grown() && Valid() && (saved ==> Shrunk())
      ensures Arrives(idx, off, len, accept, saved, target, old(Mine()), Mine())
    {
      hide Valid, Loose, RequestQueue.Linked, RequestQueue.Valid, Holds, Less, Slot, Place, Added, Find, Wrap;
      var requested := TakeIn(idx, off, len, accept, saved);
      Restate();
      Opened();
      queue.WhenEmpty();
      if requested {
        reqSend := target;
      }
      if queue.head == null && requested {
        standby := false;
      }
    }

    /** What arrives leaves the queue, or is requested again. */
    method TakeIn(idx: nat, off: nat, len: nat, accept: bool, saved: bool) returns (requested: bool)
      requires Valid()
      modifies this`reqOut
      modifies queue, queue.pieces`next, queue.pieces`count, queue.pieces`slices
      modifies queue.order`next, queue.order`sent, queue.order`reqtime
      ensures queue.Grown() && Valid() && requested == AskedFor(old(Mine()), idx, off, len)
      ensures if Holds(old(queue.lists), idx, off, len) && saved && (requested || accept) then
          && queue.lists == Less(old(queue.lists), idx, off, len) && |queue.order| == |old(queue.order)| - 1
          && (if requested then queue.n == old(queue.n) - 1 && reqOut == Wrap(old(reqOut) - 1)
              else queue.n == old(queue.n) && reqOut == old(reqOut))
        else if requested && !saved then
          var rest := Less(old(queue.lists), idx, off, len);
          && Regained(rest, idx, off, len, queue.lists) && |queue.order| == |old(queue.order)|
          && (if Place(rest, idx) < old(queue.n) then queue.n == old(queue.n) && reqOut == old(reqOut)
              else queue.n == old(queue.n) - 1 && reqOut == Wrap(old(reqOut) - 1))
        else
          queue.lists == old(queue.lists) && queue.order == old(queue.order) && queue.n == old(queue.n) && reqOut == old(reqOut)
    {
      hide Loose, RequestQueue.Linked, RequestQueue.Valid, Find, FindIn, Flat, Neat, Added, Less, Slot, Holds, Place;
      hide Sized;
      hide MaxReqQueueLength, Peak, At, Regained;
      Opened();
      requested := queue.IsSent(idx, off, len);
      if requested && !saved {
        Repeat(idx, off, len);
      } else if saved && (requested || accept) {
        var removed := DropSlice(idx, off, len);
        if requested {
          reqOut := Wrap(reqOut - 1);
        }
      }
    }

    /** Whether there is room for another piece; if not, nothing more is sent until something is received. */
    method HasRoom() returns (room: bool)
      requires Valid()
      modifies this`reqSend
      ensures room == Room(queue.geo, |queue.order|) == (|queue.order| < WholeSlices(queue.geo))
      ensures reqSend == if room then old(reqSend) else reqOut
    {
      Opened();
      var qsize := queue.Qsize();
      var psize := WholeSlices(queue.geo);
      OneTest(queue.geo, qsize);
      hide Wrap, WholeSlices;
      room := true;
      if Wrap(ReqQueueLength(queue.geo) - qsize) < psize || qsize >= psize {
        reqSend := reqOut;
        room := false;
      }
    }

    /** What holds once a piece, of which nothing has been sent, was put behind the others. */
    lemma Grew(base: seq<seq<Slice>>, list: seq<Slice>)
      requires queue.Valid() && !queue.isPending && Sized(queue.geo)
      requires reqOut < 0x1_0000_0000 && (!reset ==> reqOut == queue.n)
      requires queue.lists == base + [list] && Neat(queue.geo, base) && queue.geo.Tidy(list)
      requires |Flat(base)| < WholeSlices(queue.geo)
      ensures Valid() && |Flat(base)| < |queue.order| <= |Flat(base)| + queue.geo.NSlices(0)
    {
      hide RequestQueue.Linked, Geometry.Tidy, Flat, Geometry.NSlices;
      queue.LinkedNow();
      queue.ValidParts();
      assert queue.lists[|base|] == list;
      FindIs(queue.lists, |base|);
      FlatAppend(base, list);
      NeatAppend(queue.geo, base, list);
      PeakGrown(queue.geo, base, list);
    }

    /** Queues a piece that nobody has queued. */
    method TakeFresh(idx: nat)
      requires Valid() && |queue.order| < WholeSlices(queue.geo)
      requires !Has(queue.lists, idx) && idx < queue.geo.PieceCount()
      modifies queue`head, queue`send, queue`pieces, queue`lists, queue`order
      modifies queue.pieces`next, queue.pieces`count, queue.order`next
      ensures Valid() && queue.Grown() && Follows(old(queue.lists), idx)
      ensures |old(queue.order)| < |queue.order| <= |old(queue.order)| + queue.geo.NSlices(0)
    {
      hide Valid, Loose, RequestQueue.Linked, RequestQueue.Valid, Find, Flat, Geometry.Tiles, Geometry.Tidy;
      hide Geometry.NSlices;
      Restate();
      Opened();
      queue.ValidParts();
      ghost var base := queue.lists;
      ghost var list := queue.AddPiece(idx);
      TilesTidy(queue.geo, idx, list);
      Grew(base, list);
    }

    /** All of piece `idx` is queued behind what was queued before. */
    ghost predicate Follows(before: seq<seq<Slice>>, idx: nat)
      reads queue`lists
    {
      && |queue.lists| == |before| + 1 && queue.lists[..|before|] == before
      && queue.geo.Tiles(idx, queue.lists[|before|])
    }

    lemma Exact()
      requires Loose() && reqOut < 0x1_0000_0000 && (!reset ==> reqOut == queue.n)
      ensures Valid()
    {
    }

    lemma Restate()
      requires Valid()
      ensures Loose() && reqOut < 0x1_0000_0000 && (!reset ==> reqOut == queue.n)
    {
    }

    /** Takes over a wanted piece from the queue of pending requests, if it has one. */
    method TakePending(pending: RequestQueue, wanted: set<nat>) returns (idx: nat)
      requires Valid() && Ready(pending, queue.geo) && pending.Apart(queue) && |queue.order| < WholeSlices(queue.geo)
      modifies pending, queue, pending.pieces`next, queue.pieces`next, pending.order`sent
      ensures Valid() && Ready(pending, queue.geo) && pending.Apart(queue) && pending.From(queue)
      ensures idx <= queue.geo.PieceCount() && Unasked(idx) && queue.n == old(queue.n)
      ensures var i := FindCommon(old(pending.lists), wanted, old(queue.lists));
        if i < |old(pending.lists)| then
          && idx == old(pending.lists)[i][0].index < queue.geo.PieceCount() && Find(queue.lists, idx) == |old(queue.lists)|
          && queue.lists == old(queue.lists) + [old(pending.lists)[i]] && pending.lists == Without(old(pending.lists), i)
          && |old(queue.order)| < |queue.order| <= |old(queue.order)| + queue.geo.NSlices(0)
        else
          idx == queue.geo.PieceCount() && unchanged(queue) && unchanged(pending)
    {
      hide Valid, Loose, Unasked, RequestQueue.Linked, RequestQueue.Valid, Find, Flat, Geometry.Tidy, Sized, Peak;
      hide RequestQueue.Apart, RequestQueue.From, FindCommon, Geometry.NSlices, Has, At;
      Restate();
      Opened();
      queue.ValidParts();
      pending.LinkedNow();
      ghost var base, waiting := queue.lists, pending.lists;
      ghost var i := FindCommon(waiting, wanted, base);
      if i < |waiting| {
        NeatWithout(queue.geo, waiting, i);
        OnGrid(queue.geo, waiting[i]);
      }
      idx := pending.Reassign(queue, wanted);
      queue.ValidParts();
      if i < |waiting| {
        Grew(base, waiting[i]);
        BehindAll(base, waiting[i]);
        queue.Behind(base, waiting[i]);
      } else {
        Closed();
        Exact();
        NeverQueued(idx);
      }
    }

    lemma BehindAll(base: seq<seq<Slice>>, list: seq<Slice>)
      requires queue.Valid() && queue.lists == base + [list] && queue.n <= |Flat(base)|
      ensures list != [] && Unasked(list[0].index)
    {
      hide RequestQueue.Linked, Flat;
      queue.LinkedNow();
      assert queue.lists[|base|] == list && queue.lists[..|base|] == base;
      FindIs(queue.lists, |base|);
    }

    /** There is no piece past the last one. */
    lemma NeverQueued(idx: nat)
      requires Loose() && idx >= queue.geo.PieceCount()
      ensures Unasked(idx)
    {
      hide RequestQueue.Linked, Flat;
      if Has(queue.lists, idx) {
        OnGrid(queue.geo, queue.lists[Find(queue.lists, idx)]);
      }
    }

    /** Nothing of a piece has been sent. */
    ghost predicate Unasked(idx: nat)
      reads queue`lists, queue`n
    {
      Has(queue.lists, idx) ==> queue.n <= Start(queue.lists, Find(queue.lists, idx))
    }

    /** Queues what another peer's queue has of a piece, perhaps in another order. */
    method TakeCopy(donor: RequestQueue, idx: nat, shuffle: bool) returns (ghost list: seq<Slice>)
      requires Valid() && donor.Valid() && donor.Apart(queue) && Neat(queue.geo, donor.lists)
      requires Has(donor.lists, idx) && !Has(queue.lists, idx) && |queue.order| < WholeSlices(queue.geo)
      modifies queue, queue.pieces`next, queue.pieces`count, queue.pieces`slices, queue.order`next
      ensures Valid() && queue.Grown() && Unasked(idx) && queue.n == old(queue.n) && Has(queue.lists, idx)
      ensures |old(queue.order)| < |queue.order| <= |old(queue.order)| + queue.geo.NSlices(0)
      ensures queue.lists == old(queue.lists) + [list] && Find(queue.lists, idx) == |old(queue.lists)|
      ensures var theirs := donor.lists[Find(donor.lists, idx)];
        Alike(list, theirs) && (!shuffle ==> SameSlices(list, theirs))
    {
      hide Valid, Loose, RequestQueue.Linked, RequestQueue.Valid, Find, Flat, Geometry.Tidy, Sized, Peak, Unasked;
      hide RequestQueue.Apart, Geometry.NSlices, At, Permutation, Alike;
      Restate();
      Opened();
      queue.ValidParts();
      donor.LinkedNow();
      ghost var base, theirs := queue.lists, donor.lists[Find(donor.lists, idx)];
      var copied;
      copied, list := donor.Copy(queue, idx);
      SameTidy(queue.geo, list, theirs);
      AlikeSame(list, theirs);
      BehindAll(base, list);
      queue.Behind(base, list);
      if shuffle {
        ghost var shuffled := queue.Shuffle(idx);
        Reordered(queue.geo, list, shuffled);
        PermutationFacts(list, shuffled);
        AlikeOrder(list, theirs, shuffled);
        list := shuffled;
      }
      Grew(base, list);
      queue.Behind(base, list);
      BehindAll(base, list);
    }

    /** The first slice of a piece, of which nothing has been sent, goes behind the others if queue `d` has it in front
        too. */
    method CompareOne(idx: nat, d: RequestQueue)
      requires Valid() && Unasked(idx) && Has(queue.lists, idx) && d.Valid()
      modifies queue`send, queue`lists, queue`order, queue.pieces`slices, queue.order`next, queue.order`sent
      ensures Valid() && queue.Within() && Unasked(idx) && |queue.order| == |old(queue.order)|
      ensures Has(queue.lists, idx) && Find(queue.lists, idx) == Find(old(queue.lists), idx)
      ensures var i := Find(old(queue.lists), idx);
        var list := old(queue.lists)[i];
        queue.lists ==
          old(queue.lists)[i := if InFront(old(d.lists), idx, list[0]) then Without(list, 0) + [list[0]] else list]
    {
      hide Valid, Loose, RequestQueue.Linked, RequestQueue.Valid, Find, FindIn, Flat, Sized, Peak, Start, Geometry.Tidy;
      Restate();
      Opened();
      queue.ValidParts();
      queue.LinkedNow();
      var slice := queue.First(idx);
      var first := d.First(idx);
      if first != null && first.offset == slice.offset && first.length == slice.length {
        ghost var lists := queue.lists;
        FirstMoved(queue.geo, lists, idx);
        queue.MoveLast(idx, slice.offset, slice.length);
        queue.ValidParts();
        Closed();
        Exact();
      }
    }

    /** CompareRequest: as CompareOne for each of the other queues in turn. */
    method Compare(idx: nat, pending: RequestQueue, donors: seq<RequestQueue>)
      requires Valid() && Unasked(idx) && Has(queue.lists, idx)
      requires forall i :: 0 <= i < |donors| ==> Donor(donors[i], pending)
      modifies queue`send, queue`lists, queue`order, queue.pieces`slices, queue.order`next, queue.order`sent
      ensures Valid() && queue.Within() && Unasked(idx) && |queue.order| == |old(queue.order)|
      ensures Lists(donors) == old(Lists(donors))
      ensures var i := Find(old(queue.lists), idx);
        queue.lists == old(queue.lists)[i := Compared(old(queue.lists)[i], idx, old(Lists(donors)))]
    {
      hide Valid, Loose, RequestQueue.Linked, RequestQueue.Valid, Find, FindIn, Flat, Geometry.Tidy, Sized, Peak;
      hide Start, Neat;
      hide Unasked, Compared, InFront;
      ghost var i, before, others := Find(queue.lists, idx), queue.lists, Lists(donors);
      ghost var list := before[i];
      assert others[..0] == [];
      ComparedNone(list, idx);
      var k := 0;
      while k < |donors|
        invariant k <= |donors| && Valid() && queue.Within() && Unasked(idx) && |queue.order| == |old(queue.order)|
        invariant Has(queue.lists, idx) && Find(queue.lists, idx) == i
        invariant queue.lists == before[i := Compared(list, idx, others[..k])]
        invariant forall j :: 0 <= j < |donors| ==> donors[j].Valid() && donors[j].lists == others[j]
      {
        assert forall j :: 0 <= j < |queue.pieces| ==> queue.pieces[j] in old(queue.pieces);
        assert forall j :: 0 <= j < |queue.order| ==> queue.order[j] in old(queue.order);
        ComparedNext(list, idx, others, k);
        CompareOne(idx, donors[k]);
        forall j | 0 <= j < |donors| ensures donors[j].Valid() && donors[j].lists == others[j] {
          assert old(Donor(donors[j], pending));
        }
        k := k + 1;
      }
      assert others[..k] == others;
      assert Lists(donors) == others;
    }

    /** What the other peers have queued. */
    static ghost function Lists(donors: seq<RequestQueue>): (others: seq<seq<seq<Slice>>>)
      reads donors
      ensures |others| == |donors| && forall i :: 0 <= i < |donors| ==> others[i] == donors[i].lists
    {
      seq(|donors|, i requires 0 <= i < |donors| reads donors => donors[i].lists)
    }

    /** The two queues hold only what one of them held, or what is new. */
    twostate predicate Mixed(pending: RequestQueue)
      reads queue`pieces, queue`order, pending`pieces, pending`order
    {
      && (forall j :: 0 <= j < |queue.pieces| ==>
        queue.pieces[j] in old(queue.pieces) || queue.pieces[j] in old(pending.pieces) || fresh(queue.pieces[j]))
      && (forall j :: 0 <= j < |queue.order| ==>
        queue.order[j] in old(queue.order) || queue.order[j] in old(pending.order) || fresh(queue.order[j]))
      && (forall j :: 0 <= j < |pending.pieces| ==>
        pending.pieces[j] in old(queue.pieces) || pending.pieces[j] in old(pending.pieces) || fresh(pending.pieces[j]))
      && (forall j :: 0 <= j < |pending.order| ==>
        pending.order[j] in old(queue.order) || pending.order[j] in old(pending.order) || fresh(pending.order[j]))
    }

    /** Queue `d` is another peer's: it shares nothing with this peer's, nor with the queue of pending requests. */
    ghost predicate Donor(d: RequestQueue, pending: RequestQueue)
      reads d, d.pieces, d.order, queue`pieces, queue`order, pending`pieces, pending`order
    {
      && d != queue && d != pending && d.Valid() && Neat(queue.geo, d.lists)
      && (forall j :: 0 <= j < |d.pieces| ==> d.pieces[j] !in queue.pieces && d.pieces[j] !in pending.pieces)
      && (forall j :: 0 <= j < |d.order| ==> d.order[j] !in queue.order && d.order[j] !in pending.order)
    }

    ghost predicate Paired(pending: RequestQueue)
      reads queue, queue.pieces, queue.order, pending, pending.pieces, pending.order
    {
      && Loose() && Ready(pending, queue.geo)
      && queue != pending && queue.Apart(pending) && pending.Apart(queue)
    }

    /** How many slices may be queued before there is no room for another piece. */
    ghost function Gap(): nat
      reads queue`order
    {
      if |queue.order| < WholeSlices(queue.geo) then WholeSlices(queue.geo) - |queue.order| else 0
    }

    lemma PairParts(pending: RequestQueue)
      requires Paired(pending)
      ensures queue != pending && Ready(pending, queue.geo)
      ensures forall j :: 0 <= j < |pending.pieces| ==> pending.pieces[j] !in queue.pieces
      ensures forall j :: 0 <= j < |pending.order| ==> pending.order[j] !in queue.order
    {
    }

    /** Sends up to five requests, with other queues around. */
    method Batch(pending: RequestQueue, donors: seq<RequestQueue>) returns (ok: bool)
      requires Valid() && Paired(pending) && forall i :: 0 <= i < |donors| ==> Donor(donors[i], pending)
      modifies this`reqOut, this`credit, this`reset, queue`send, queue`n, queue.order
      ensures Valid() && Paired(pending) && Mixed(pending)
      ensures (forall i :: 0 <= i < |donors| ==> Donor(donors[i], pending)) && Lists(donors) == old(Lists(donors))
      ensures Mine() == Batched(Checked(queue.geo, old(Mine())))
      ensures ok == (Portion(Checked(queue.geo, old(Mine()))) <= old(credit))
      ensures old(!reset && Tamable()) ==> !reset && Onward()
    {
      hide Valid, Loose, Ready, RequestQueue.Valid, Neat, Unasked, MaxReqQueueLength, Tamable, Onward, Portion;
      hide Checked, Batched;
      PairParts(pending);
      ok := SendBatch();
      Restate();
      assert Ready(pending, queue.geo);
      assert queue.Apart(pending);
      assert pending.Apart(queue);
      forall i | 0 <= i < |donors| ensures Donor(donors[i], pending) {
        assert old(Donor(donors[i], pending));
      }
    }

    /** As Compare, with what else has to stay as it is. */
    method CompareAmong(idx: nat, pending: RequestQueue, donors: seq<RequestQueue>)
      requires Valid() && Paired(pending) && forall i :: 0 <= i < |donors| ==> Donor(donors[i], pending)
      requires Unasked(idx) && Has(queue.lists, idx)
      modifies queue`send, queue`lists, queue`order, queue.pieces`slices, queue.order`next, queue.order`sent
      ensures Valid() && Paired(pending) && queue.Within() && |queue.order| == |old(queue.order)|
      ensures (forall i :: 0 <= i < |donors| ==> Donor(donors[i], pending)) && Lists(donors) == old(Lists(donors))
      ensures var i := Find(old(queue.lists), idx);
        queue.lists == old(queue.lists)[i := Compared(old(queue.lists)[i], idx, old(Lists(donors)))]
    {
      hide Valid, Loose, Ready, RequestQueue.Valid, Neat, Unasked, Find, Compared;
      PairParts(pending);
      Compare(idx, pending, donors);
      Restate();
      assert Ready(pending, queue.geo);
      assert queue.Apart(pending);
      assert pending.Apart(queue);
      forall i | 0 <= i < |donors| ensures Donor(donors[i], pending) {
        assert old(Donor(donors[i], pending));
      }
    }

    /** As TakePending, with what else has to stay as it is. */
    method Assign(pending: RequestQueue, donors: seq<RequestQueue>, wanted: set<nat>) returns (idx: nat)
      requires |queue.order| < WholeSlices(queue.geo)
      requires Valid() && Paired(pending) && forall i :: 0 <= i < |donors| ==> Donor(donors[i], pending)
      modifies queue, queue.pieces, queue.order, pending, pending.pieces, pending.order
      ensures Valid() && Paired(pending) && Mixed(pending) && queue.n == old(queue.n) && Unasked(idx)
      ensures (forall i :: 0 <= i < |donors| ==> Donor(donors[i], pending)) && Lists(donors) == old(Lists(donors))
      ensures pending.From(queue)
      ensures var i := FindCommon(old(pending.lists), wanted, old(queue.lists));
        if i < |old(pending.lists)| then
          && idx == old(pending.lists)[i][0].index < queue.geo.PieceCount() && Find(queue.lists, idx) == |old(queue.lists)|
          && queue.lists == old(queue.lists) + [old(pending.lists)[i]] && pending.lists == Without(old(pending.lists), i)
          && |old(queue.order)| < |queue.order| <= |old(queue.order)| + queue.geo.NSlices(0)
        else
          idx == queue.geo.PieceCount() && unchanged(queue) && unchanged(pending)
    {
      hide Valid, Loose, Ready, RequestQueue.Valid, Neat, Unasked, Geometry.NSlices, FindCommon, Find;
      PairParts(pending);
      idx := TakePending(pending, wanted);
      Restate();
      forall i | 0 <= i < |donors| ensures Donor(donors[i], pending) {
        assert old(Donor(donors[i], pending));
      }
    }

    /** Queues a wanted piece from the pending requests, if there is one, and perhaps moves its first slices behind the
        others. */
    method FromPending(pending: RequestQueue, donors: seq<RequestQueue>, wanted: set<nat>, compare: bool)
      returns (found: bool)
      requires |queue.order| < WholeSlices(queue.geo)
      requires Valid() && Paired(pending) && forall i :: 0 <= i < |donors| ==> Donor(donors[i], pending)
      modifies queue, queue.pieces, queue.order, pending, pending.pieces, pending.order
      ensures Valid() && Paired(pending) && Mixed(pending) && queue.n == old(queue.n)
      ensures (forall i :: 0 <= i < |donors| ==> Donor(donors[i], pending)) && Lists(donors) == old(Lists(donors))
      ensures var i := FindCommon(old(pending.lists), wanted, old(queue.lists));
        && found == (i < |old(pending.lists)|)
        && if found then
          var list := old(pending.lists)[i];
          var taken := if compare then Compared(list, list[0].index, old(Lists(donors))) else list;
          && queue.lists == old(queue.lists) + [taken] && pending.lists == Without(old(pending.lists), i)
          && |old(queue.order)| < |queue.order| <= |old(queue.order)| + queue.geo.NSlices(0)
        else unchanged(queue) && unchanged(pending)
    {
      hide Valid, Loose, Ready, RequestQueue.Valid, Neat, Unasked, Geometry.NSlices, FindCommon, Compared, Paired;
      hide Donor, Find;
      var idx := Assign(pending, donors, wanted);
      found := idx < queue.geo.PieceCount();
      if found && compare {
        assert forall j :: 0 <= j < |queue.pieces| ==>
          queue.pieces[j] in old(queue.pieces) || queue.pieces[j] in old(pending.pieces);
        assert forall j :: 0 <= j < |queue.order| ==>
          queue.order[j] in old(queue.order) || queue.order[j] in old(pending.order);
        CompareAmong(idx, pending, donors);
      }
    }

    /** Queues what another peer has queued of a piece. */
    method FromDonor(pending: RequestQueue, donors: seq<RequestQueue>, d: nat, idx: nat, shuffle: bool)
      requires d < |donors| && Has(donors[d].lists, idx) && !Has(queue.lists, idx)
      requires |queue.order| < WholeSlices(queue.geo)
      requires Valid() && Paired(pending) && forall i :: 0 <= i < |donors| ==> Donor(donors[i], pending)
      modifies queue, queue.pieces, queue.order
      ensures Valid() && Paired(pending) && Mixed(pending) && queue.n == old(queue.n)
      ensures (forall i :: 0 <= i < |donors| ==> Donor(donors[i], pending)) && Lists(donors) == old(Lists(donors))
      ensures |old(queue.order)| < |queue.order| <= |old(queue.order)| + queue.geo.NSlices(0)
      ensures |queue.lists| == |old(queue.lists)| + 1 && queue.lists[..|old(queue.lists)|] == old(queue.lists)
      ensures var theirs := old(donors[d].lists)[Find(old(donors[d].lists), idx)];
        if shuffle then Alike(queue.lists[|old(queue.lists)|], theirs)
        else SameSlices(queue.lists[|old(queue.lists)|], Compared(theirs, idx, old(Lists(donors))))
    {
      hide Valid, Loose, Ready, RequestQueue.Valid, Neat, Unasked, Geometry.NSlices, Compared, Find, Alike;
      hide SameSlices, Paired;
      hide Donor;
      ghost var others, theirs := Lists(donors), donors[d].lists[Find(donors[d].lists, idx)];
      ghost var list := Copy(pending, donors, d, idx, shuffle);
      assert forall j :: 0 <= j < |queue.pieces| ==> queue.pieces[j] in old(queue.pieces) || fresh(queue.pieces[j]);
      assert forall j :: 0 <= j < |queue.order| ==> queue.order[j] in old(queue.order) || fresh(queue.order[j]);
      CompareAmong(idx, pending, donors);
      ComparedCopy(list, theirs, idx, others);
    }

    /** As TakeCopy, with what else has to stay as it is. */
    method Copy(pending: RequestQueue, donors: seq<RequestQueue>, d: nat, idx: nat, shuffle: bool)
      returns (ghost list: seq<Slice>)
      requires d < |donors| && Has(donors[d].lists, idx) && !Has(queue.lists, idx)
      requires |queue.order| < WholeSlices(queue.geo)
      requires Valid() && Paired(pending) && forall i :: 0 <= i < |donors| ==> Donor(donors[i], pending)
      modifies queue, queue.pieces, queue.order
      ensures Valid() && Paired(pending) && queue.Grown() && queue.n == old(queue.n) && Unasked(idx) && Has(queue.lists, idx)
      ensures (forall i :: 0 <= i < |donors| ==> Donor(donors[i], pending)) && Lists(donors) == old(Lists(donors))
      ensures |old(queue.order)| < |queue.order| <= |old(queue.order)| + queue.geo.NSlices(0)
      ensures queue.lists == old(queue.lists) + [list] && Find(queue.lists, idx) == |old(queue.lists)|
      ensures var theirs := old(donors[d].lists)[Find(old(donors[d].lists), idx)];
        Alike(list, theirs) && (!shuffle ==> SameSlices(list, theirs))
    {
      hide Valid, Loose, Ready, RequestQueue.Valid, Neat, Unasked, Geometry.NSlices, Find, Alike, SameSlices;
      PairParts(pending);
      assert Donor(donors[d], pending);
      list := TakeCopy(donors[d], idx, shuffle);
      Restate();
      assert Ready(pending, queue.geo);
      assert queue.Apart(pending);
      assert pending.Apart(queue);
      forall i | 0 <= i < |donors| ensures Donor(donors[i], pending) {
        assert old(Donor(donors[i], pending));
      }
    }

    /** Queues a piece that nobody has queued. */
    method Fresh(pending: RequestQueue, donors: seq<RequestQueue>, idx: nat)
      requires !Has(queue.lists, idx) && idx < queue.geo.PieceCount()
      requires |queue.order| < WholeSlices(queue.geo)
      requires Valid() && Paired(pending) && forall i :: 0 <= i < |donors| ==> Donor(donors[i], pending)
      modifies queue`head, queue`send, queue`pieces, queue`lists, queue`order, queue.pieces, queue.order
      ensures Valid() && Paired(pending) && Mixed(pending) && Follows(old(queue.lists), idx)
      ensures (forall i :: 0 <= i < |donors| ==> Donor(donors[i], pending)) && Lists(donors) == old(Lists(donors))
      ensures |old(queue.order)| < |queue.order| <= |old(queue.order)| + queue.geo.NSlices(0)
    {
      hide Valid, Loose, Ready, RequestQueue.Valid, Neat, Unasked, Geometry.NSlices, Follows;
      PairParts(pending);
      TakeFresh(idx);
      Restate();
      assert Ready(pending, queue.geo);
      assert queue.Apart(pending);
      assert pending.Apart(queue);
      forall i | 0 <= i < |donors| ensures Donor(donors[i], pending) {
        assert old(Donor(donors[i], pending));
      }
    }

    /** Requests what is queued, and queues more until there is enough; negative if the connection fails. */
    method SendRequest(pending: RequestQueue, donors: seq<RequestQueue>, plan: seq<Choice>)
      returns (result: int, ghost trail: seq<Moment>)
      requires Valid() && Paired(pending) && forall i :: 0 <= i < |donors| ==> Donor(donors[i], pending)
      modifies this`reqOut, this`reqSend, this`standby, this`localInterested, this`credit, this`reset
      modifies queue, queue.pieces, queue.order, pending, pending.pieces, pending.order
      ensures Paired(pending) && (result >= 0 ==> Valid()) && Mixed(pending)
      ensures (forall i :: 0 <= i < |donors| ==> Donor(donors[i], pending)) && Lists(donors) == old(Lists(donors))
      ensures Safe(queue.geo) && !old(reset) && old(Tamable()) ==> !reset && (result >= 0 ==> Tame())
      ensures Sending(queue.geo, plan, old(Lists(donors)), trail, result >= 0)
      ensures |trail| >= 2 && trail[0] == old(Now(pending)) && trail[|trail| - 1] == Now(pending)
      decreases Gap(), 1
    {
      hide Valid, Loose, Ready, Paired, Donor, MaxReqQueueLength, Safe, Peak, Sized, Has, Tame, Tamable, MayAsk;
      hide Portion, Batched, Asking;
      Restate();
      Opened();
      ghost var start := Now(pending);
      var ok := Batch(pending, donors);
      trail := [start, Now(pending)];
      if !ok {
        return -1, trail;
      }
      result := 0;
      if reqOut < reqSend && !standby {
        ghost var more;
        result, more := RequestPiece(pending, donors, plan);
        trail := [start] + more;
        assert trail[1..] == more;
      }
    }

    /** Queues another piece if there is room, and requests it; negative if the connection fails. */
    method RequestPiece(pending: RequestQueue, donors: seq<RequestQueue>, plan: seq<Choice>)
      returns (result: int, ghost trail: seq<Moment>)
      requires Valid() && Paired(pending) && forall i :: 0 <= i < |donors| ==> Donor(donors[i], pending)
      modifies this`reqOut, this`reqSend, this`standby, this`localInterested, this`credit, this`reset
      modifies queue, queue.pieces, queue.order, pending, pending.pieces, pending.order
      ensures Paired(pending) && (result >= 0 ==> Valid()) && Mixed(pending)
      ensures (forall i :: 0 <= i < |donors| ==> Donor(donors[i], pending)) && Lists(donors) == old(Lists(donors))
      ensures Safe(queue.geo) && old(MayAsk()) ==> !reset && (result >= 0 ==> Tame())
      ensures Asking(queue.geo, plan, old(Lists(donors)), trail, result >= 0)
      ensures |trail| >= 2 && trail[0] == old(Now(pending)) && trail[|trail| - 1] == Now(pending)
      decreases Gap(), 0
    {
      hide Valid, Loose, Ready, Paired, Donor, MaxReqQueueLength, Safe, Tame, Tamable, Geometry.NSlices, Chosen;
      hide Sending;
      Restate();
      Opened();
      ghost var start, q := Now(pending), |queue.order|;
      var queued;
      queued, result := QueuePiece(pending, donors, Next(plan));
      trail := [start, Now(pending)];
      if queued {
        ghost var more;
        result, more := SendQueued(pending, donors, Later(plan), q);
        trail := [start] + more;
        assert trail[1..] == more;
      } else if result >= 0 && Safe(queue.geo) && old(MayAsk()) {
        Restate();
        NoneTame();
      }
    }

    /** Requests a piece that has just been queued after `q` slices. */
    method SendQueued(pending: RequestQueue, donors: seq<RequestQueue>, plan: seq<Choice>, ghost q: nat)
      returns (result: int, ghost trail: seq<Moment>)
      requires Valid() && Paired(pending) && forall i :: 0 <= i < |donors| ==> Donor(donors[i], pending)
      requires queue.n <= q < WholeSlices(queue.geo) && |queue.order| <= q + queue.geo.NSlices(0)
      modifies this`reqOut, this`reqSend, this`standby, this`localInterested, this`credit, this`reset
      modifies queue, queue.pieces, queue.order, pending, pending.pieces, pending.order
      ensures Paired(pending) && (result >= 0 ==> Valid()) && Mixed(pending)
      ensures (forall i :: 0 <= i < |donors| ==> Donor(donors[i], pending)) && Lists(donors) == old(Lists(donors))
      ensures Safe(queue.geo) && !old(reset) && (old(standby) ==> q == 0) ==> !reset && (result >= 0 ==> Tame())
      ensures Sending(queue.geo, plan, old(Lists(donors)), trail, result >= 0)
      ensures |trail| >= 2 && trail[0] == old(Now(pending)) && trail[|trail| - 1] == Now(pending)
      decreases Gap(), 2
    {
      hide Valid, Loose, Ready, Paired, Donor, MaxReqQueueLength, Safe, Tame, Tamable, Geometry.NSlices, Mixed, Sending;
      Restate();
      Opened();
      if Safe(queue.geo) && !reset && (standby ==> q == 0) {
        GrownTame(q);
      }
      result, trail := SendRequest(pending, donors, plan);
    }

    /** Queues another piece if there is room. */
    method QueuePiece(pending: RequestQueue, donors: seq<RequestQueue>, choice: Choice) returns (queued: bool, result: int)
      requires Valid() && Paired(pending) && forall i :: 0 <= i < |donors| ==> Donor(donors[i], pending)
      modifies this`reqOut, this`reqSend, this`standby, this`localInterested, this`credit, this`reset
      modifies queue, queue.pieces, queue.order, pending, pending.pieces, pending.order
      ensures Paired(pending) && (result >= 0 ==> Valid()) && Mixed(pending) && Counted(queue.geo, old(Mine()), Mine())
      ensures (forall i :: 0 <= i < |donors| ==> Donor(donors[i], pending)) && Lists(donors) == old(Lists(donors))
      ensures queued ==>
        && Valid() && |old(queue.order)| < WholeSlices(queue.geo)
        && |old(queue.order)| < |queue.order| <= |old(queue.order)| + queue.geo.NSlices(0)
        && queue.n == old(queue.n) && unchanged(this) && result >= 0
      ensures !queued && result >= 0 ==>
        queue.lists == [] || (reqOut == old(reqOut) && queue.order == old(queue.order) && queue.n == old(queue.n))
      ensures |old(queue.order)| >= WholeSlices(queue.geo) ==>
        !queued && queue.n == old(queue.n) && reqSend == reqOut == old(reqOut)
      ensures Chosen(queue.geo, choice, old(Lists(donors)), old(Now(pending)), Now(pending), queued, result >= 0)
    {
      hide Valid, Loose, Ready, Paired, Donor, Geometry.NSlices, Flat, Has, Compared, ChosenOther, FindCommon;
      hide MaxReqQueueLength;
      queued, result := false, 0;
      PairParts(pending);
      OrderNow();
      var room := HasRoom();
      if !room {
        return;
      }
      queued := FromPending(pending, donors, choice.wanted, choice.compare);
      if !queued {
        queued, result := QueueOther(pending, donors, choice.other);
      }
    }

    /** Queues what another peer has of a piece, or a piece that nobody has queued, if there is anything to request. */
    method QueueOther(pending: RequestQueue, donors: seq<RequestQueue>, other: Other) returns (queued: bool, result: int)
      requires |queue.order| < WholeSlices(queue.geo)
      requires Valid() && Paired(pending) && forall i :: 0 <= i < |donors| ==> Donor(donors[i], pending)
      modifies this`reqOut, this`reqSend, this`standby, this`localInterested, this`credit, this`reset
      modifies queue, queue.pieces, queue.order
      ensures Paired(pending) && (result >= 0 ==> Valid()) && Mixed(pending) && Counted(queue.geo, old(Mine()), Mine())
      ensures (forall i :: 0 <= i < |donors| ==> Donor(donors[i], pending)) && Lists(donors) == old(Lists(donors))
      ensures queued ==>
        && Valid() && |old(queue.order)| < |queue.order| <= |old(queue.order)| + queue.geo.NSlices(0)
        && queue.n == old(queue.n) && unchanged(this) && result >= 0
      ensures !queued && result >= 0 ==>
        queue.lists == [] || (reqOut == old(reqOut) && queue.order == old(queue.order) && queue.n == old(queue.n))
      ensures ChosenOther(queue.geo, other, old(Lists(donors)), old(Mine()), Mine(), queued, result >= 0)
    {
      hide Valid, Loose, Ready, Paired, Donor, Geometry.NSlices, Find, Alike, MaxReqQueueLength, Geometry.Tiles;
      hide Deserted;
      queued, result := false, 0;
      match other {
        case Nothing =>
        case Copied(d, idx) =>
          queued := QueueCopy(pending, donors, d, idx);
        case New(idx) =>
          var mine := Queued(idx);
          if idx < queue.geo.PieceCount() && !mine {
            Fresh(pending, donors, idx);
            queued := true;
          }
        case Declined(wanted, retry) =>
          result := Decline(pending, donors, wanted, retry);
      }
    }

    /** Queues what another peer has of a piece, if it has it and this one has not. */
    method QueueCopy(pending: RequestQueue, donors: seq<RequestQueue>, d: nat, idx: nat) returns (queued: bool)
      requires |queue.order| < WholeSlices(queue.geo)
      requires Valid() && Paired(pending) && forall i :: 0 <= i < |donors| ==> Donor(donors[i], pending)
      modifies queue, queue.pieces, queue.order
      ensures Valid() && Paired(pending) && Mixed(pending) && queue.n == old(queue.n)
      ensures (forall i :: 0 <= i < |donors| ==> Donor(donors[i], pending)) && Lists(donors) == old(Lists(donors))
      ensures queued ==> |old(queue.order)| < |queue.order| <= |old(queue.order)| + queue.geo.NSlices(0)
      ensures !queued ==> unchanged(queue)
      ensures ChosenOther(queue.geo, Copied(d, idx), old(Lists(donors)), old(Mine()), Mine(), queued, true)
    {
      hide Valid, Loose, Ready, Paired, Donor, Geometry.NSlices, Find, Alike, MaxReqQueueLength, Compared, SameSlices;
      queued := false;
      var mine := Queued(idx);
      if d < |donors| {
        HelpersValid(pending, donors);
        var theirs := donors[d].HasPiece(idx);
        if theirs && !mine {
          FromDonor(pending, donors, d, idx, true);
          queued := true;
        }
      }
    }

    method Queued(idx: nat) returns (has: bool)
      requires Valid()
      ensures has <==> Has(queue.lists, idx)
    {
      has := queue.HasPiece(idx);
    }

    lemma HelpersValid(pending: RequestQueue, donors: seq<RequestQueue>)
      requires forall i :: 0 <= i < |donors| ==> Donor(donors[i], pending)
      ensures forall i :: 0 <= i < |donors| ==> donors[i].Valid()
    {
    }

    /** There is nothing to request: the peer is told so, or is left alone for now. */
    method Decline(pending: RequestQueue, donors: seq<RequestQueue>, wanted: bool, retry: bool) returns (result: int)
      requires Valid() && Paired(pending) && forall i :: 0 <= i < |donors| ==> Donor(donors[i], pending)
      modifies this`reqOut, this`reqSend, this`standby, this`localInterested, this`credit, this`reset
      modifies queue
      ensures Paired(pending) && (result >= 0 ==> Valid()) && Mixed(pending) && Counted(queue.geo, old(Mine()), Mine())
      ensures (forall i :: 0 <= i < |donors| ==> Donor(donors[i], pending)) && Lists(donors) == old(Lists(donors))
      ensures result >= 0 ==>
        queue.lists == [] || (reqOut == old(reqOut) && queue.order == old(queue.order) && queue.n == old(queue.n))
      ensures if wanted then result == 0 && Mine() == old(Mine()).(standby := old(standby) || !retry)
        else Deserted(queue.geo, old(Mine()), Mine(), result >= 0)
    {
      hide Valid, Loose, Ready, RequestQueue.Valid, Neat, MaxReqQueueLength;
      PairParts(pending);
      Restate();
      result := 0;
      if !wanted {
        result := NotInterested();
      } else if !retry {
        standby := true;
      }
      assert Ready(pending, queue.geo);
      assert queue.Apart(pending);
      assert pending.Apart(queue);
      forall i | 0 <= i < |donors| ensures Donor(donors[i], pending) {
        assert old(Donor(donors[i], pending));
      }
    }

    /** The queue is no longer, no more of it has been sent, and a longer one is not to be filled. */
    twostate predicate Shrunk()
      reads this`reqSend, queue`order, queue`n
    {
      && |queue.order| <= |old(queue.order)| && queue.n <= old(queue.n)
      && (|queue.order| == |old(queue.order)| ==> queue.n == old(queue.n) && reqSend == old(reqSend))
    }

    lemma EmptyNow()
      requires Loose()
      ensures queue.lists == [] ==> queue.order == [] && queue.n == 0
    {
      hide RequestQueue.Linked;
      queue.WhenEmpty();
    }

    /** What happens to this peer's requests alone; negative if they are to be given up. */
    method Own(e: Event) returns (result: int)
      requires Valid()
      modifies this, queue, queue.pieces, queue.order
      ensures Loose() && (result >= 0 ==> Valid()) && queue.Grown()
      ensures result >= 0 && !(e.Arrive? && !e.saved) ==> Shrunk() || queue.order == []
      ensures Counted(queue.geo, old(Mine()), Mine()) && ByItself(queue.geo, e, old(Mine()), Mine(), result >= 0)
    {
      hide Valid, Loose, MaxReqQueueLength, Arrives, SliceDropped, PieceDropped;
      Restate();
      result := 0;
      match e {
        case Arrive(idx, off, len, accept, saved, target) =>
          PieceDeliver(idx, off, len, accept, saved, target);
        case DropSlice(idx, off, len) =>
          result := CancelSliceRequest(idx, off, len);
          Restate();
        case DropPiece(idx) =>
          var names;
          result, names := CancelPiece(idx);
        case Interesting =>
          result := Interested();
        case Uninteresting =>
          result := NotInterested();
          EmptyNow();
        case Unresponsive => result := Signal(e);
        case Choke => result := Signal(e);
        case Unchoke => result := Signal(e);
        case Awake => result := Signal(e);
        case Request(plan, due, wanted) =>
        case TakeOver(d, idx) =>
      }
      if result >= 0 {
        Restate();
      }
    }

    /** The peer chokes, answers again, does not respond or is not to wait any longer; negative if its requests are to be
        given up. */
    method Signal(e: Event) returns (result: int)
      requires Valid() && (e.Unresponsive? || e.Choke? || e.Unchoke? || e.Awake?)
      modifies this`reqOut, this`credit, this`reset, this`remoteChoked, this`standby
      ensures Loose() && (result >= 0 ==> Valid())
      ensures Counted(queue.geo, old(Mine()), Mine()) && ByItself(queue.geo, e, old(Mine()), Mine(), result >= 0)
    {
      hide Valid, Loose, MaxReqQueueLength;
      Restate();
      result := 0;
      match e {
        case Unresponsive =>
          var r := CancelRequest();
          result := -1;
        case Choke =>
          NothingQueued();
          remoteChoked := true;
          if queue.head != null {
            result := -1;
          }
        case Unchoke =>
          Unchoked();
        case Awake =>
          standby := false;
      }
      if result >= 0 {
        Restate();
      }
    }

    /** Requests that are given up go to the queue of pending requests. */
    method GiveUp(pending: RequestQueue, donors: seq<RequestQueue>)
      requires Paired(pending) && forall i :: 0 <= i < |donors| ==> Donor(donors[i], pending)
      modifies this`reqOut, queue, queue.pieces, queue.order, pending, pending.pieces
      ensures Valid() && Paired(pending) && Mixed(pending) && queue.order == [] && queue.n == 0
      ensures (forall i :: 0 <= i < |donors| ==> Donor(donors[i], pending)) && Lists(donors) == old(Lists(donors))
      ensures GivenAll(pending, old(Now(pending)), Now(pending))
    {
      hide Valid, Loose, Ready, RequestQueue.Valid, Neat;
      PairParts(pending);
      AllFilled(pending);
      GivenSame(queue, pending, pending.lists, queue.lists);
      PutPending(pending);
      Restate();
      EmptyNow();
      assert queue.Apart(pending);
      assert pending.Apart(queue);
      forall i | 0 <= i < |donors| ensures Donor(donors[i], pending) {
        assert old(Donor(donors[i], pending));
      }
    }

    lemma AllFilled(pending: RequestQueue)
      requires Paired(pending)
      ensures Filled(queue.lists) && Filled(pending.lists) && pending.geo == queue.geo && pending.isPending
    {
      hide RequestQueue.Linked;
      queue.WhenEmpty();
      pending.WhenEmpty();
    }

    /** As Own, with other queues around. */
    method Alone(e: Event, pending: RequestQueue, donors: seq<RequestQueue>) returns (result: int)
      requires Valid() && Paired(pending) && forall i :: 0 <= i < |donors| ==> Donor(donors[i], pending)
      modifies this, queue, queue.pieces, queue.order
      ensures Paired(pending) && (result >= 0 ==> Valid()) && Mixed(pending)
      ensures forall i :: 0 <= i < |donors| ==> Donor(donors[i], pending)
      ensures result >= 0 && !(e.Arrive? && !e.saved) ==> Shrunk() || queue.order == []
      ensures Counted(queue.geo, old(Mine()), Mine()) && ByItself(queue.geo, e, old(Mine()), Mine(), result >= 0)
    {
      hide Valid, Loose, Ready, RequestQueue.Valid, Neat, MaxReqQueueLength, Shrunk, ByItself, Counted;
      PairParts(pending);
      result := Own(e);
      assert Ready(pending, queue.geo);
      assert queue.Apart(pending);
      assert pending.Apart(queue);
      forall i | 0 <= i < |donors| ensures Donor(donors[i], pending) {
        assert old(Donor(donors[i], pending));
      }
    }

    /** RequestCheck: makes sure that the peer is asked for something, if it has anything that is `wanted`. What is queued
        is sent on if the measured rate says that more is due. */
    method RequestCheck(pending: RequestQueue, donors: seq<RequestQueue>, plan: seq<Choice>, due: bool, wanted: bool)
      returns (result: int, ghost trail: seq<Moment>)
      requires Valid() && Paired(pending) && forall i :: 0 <= i < |donors| ==> Donor(donors[i], pending)
      modifies this, queue, queue.pieces, queue.order, pending, pending.pieces, pending.order
      ensures Paired(pending) && (result >= 0 ==> Valid()) && Mixed(pending)
      ensures forall i :: 0 <= i < |donors| ==> Donor(donors[i], pending)
      ensures Safe(queue.geo) && old(Calm()) ==> !reset && (result >= 0 ==> Tame())
      ensures Requested(queue.geo, plan, due, wanted, old(Lists(donors)), old(Now(pending)), Now(pending), trail, result >= 0)
    {
      hide Valid, Loose, Ready, Paired, Donor, MaxReqQueueLength, Safe, Tame, MoreAsked, Deserted, Counted;
      result, trail := 0, [];
      PairParts(pending);
      if !wanted {
        result := AloneCalm(Uninteresting, pending, donors);
        return;
      }
      if !localInterested {
        result := Interested();
      }
      if result >= 0 && !remoteChoked {
        result, trail := Check(pending, donors, plan, due);
      }
    }

    /** What RequestCheck does for a peer that may be asked. */
    method Check(pending: RequestQueue, donors: seq<RequestQueue>, plan: seq<Choice>, due: bool)
      returns (result: int, ghost trail: seq<Moment>)
      requires Valid() && Paired(pending) && forall i :: 0 <= i < |donors| ==> Donor(donors[i], pending)
      modifies this`reqOut, this`reqSend, this`standby, this`localInterested, this`credit, this`reset
      modifies queue, queue.pieces, queue.order, pending, pending.pieces, pending.order
      ensures Paired(pending) && (result >= 0 ==> Valid()) && Mixed(pending)
      ensures forall i :: 0 <= i < |donors| ==> Donor(donors[i], pending)
      ensures Safe(queue.geo) && old(Calm()) ==> !reset && (result >= 0 ==> Tame())
      ensures MoreAsked(queue.geo, plan, due, old(Lists(donors)), old(Now(pending)), Now(pending), trail, result >= 0)
    {
      hide Valid, Loose, Ready, Paired, Donor, MaxReqQueueLength, Safe, WholeSlices, Asking, Sending;
      Restate();
      NothingQueued();
      CheckCount();
      Exact();
      result, trail := 0, [];
      if queue.head == null {
        result, trail := RequestPiece(pending, donors, plan);
      } else if reqOut < reqSend && due {
        result, trail := SendRequest(pending, donors, plan);
      }
    }

    lemma NothingQueued()
      requires Valid()
      ensures queue.head == null <==> queue.lists == []
      ensures queue.head == null ==> queue.order == []
    {
      hide RequestQueue.Linked;
      queue.WhenEmpty();
    }

    /** Takes over a piece of which another peer has been asked, if there is nothing else. */
    method Overtake(d: nat, idx: nat, pending: RequestQueue, donors: seq<RequestQueue>)
      requires Valid() && Paired(pending) && forall i :: 0 <= i < |donors| ==> Donor(donors[i], pending)
      modifies this`reqSend, queue, queue.pieces, queue.order
      ensures Valid() && Paired(pending) && Mixed(pending)
      ensures forall i :: 0 <= i < |donors| ==> Donor(donors[i], pending)
      ensures Safe(queue.geo) && old(Calm()) ==> Calm()
      ensures Overtaken(queue.geo, d, idx, old(Lists(donors)), old(Mine()), Mine())
    {
      hide Valid, Loose, Ready, Paired, Donor, MaxReqQueueLength, Safe, Geometry.NSlices, Compared, SameSlices, Find;
      hide RequestQueue.Valid, RequestQueue.Linked, Neat, Alike, Sized, Peak, Tamable, WholeSlices;
      NothingQueued();
      if queue.head == null && d < |donors| {
        HelpersValid(pending, donors);
        Restate();
        var theirs := donors[d].HasPiece(idx);
        Opened();
        var room := HasRoom();
        if theirs && room {
          NothingHas(idx);
          FromDonor(pending, donors, d, idx, false);
          Restate();
          if Safe(queue.geo) {
            GrownTame(0);
          }
        }
      }
    }

    static lemma NothingHas(idx: nat)
      ensures !Has([], idx)
    {
    }

    /** Whatever happens, the counter stays exact until it is reset; and for safe sizes it is never reset, if what
        arrives can be saved or no queue grows beyond the limit. What comes of each event is said by Happened. */
    method Handle(e: Event, messages: nat, pending: RequestQueue, donors: seq<RequestQueue>)
      returns (ghost last: Moment, ghost trail: seq<Moment>)
      requires Valid() && Paired(pending) && forall i :: 0 <= i < |donors| ==> Donor(donors[i], pending)
      modifies this, queue, queue.pieces, queue.order, pending, pending.pieces, pending.order
      ensures Valid() && Paired(pending) && Mixed(pending)
      ensures forall i :: 0 <= i < |donors| ==> Donor(donors[i], pending)
      ensures Safe(queue.geo) && old(Calm()) && Usual(queue.geo, e) ==> Calm()
      ensures Happened(pending, e, old(Lists(donors)), WithCredit(old(Now(pending)), messages), Now(pending), last, trail)
    {
      hide Valid, Loose, Ready, Paired, Donor, MaxReqQueueLength, Safe, Peak, Usual, Requested, Overtaken, ByItself;
      hide Counted, GivenAll;
      AllFilled(pending);
      credit := messages;
      var result;
      result, trail := Respond(e, pending, donors);
      last := Now(pending);
      if result < 0 {
        GiveUp(pending, donors);
      }
      Restate();
    }

    /** An event is dealt with; negative if requests are to be given up. */
    method Respond(e: Event, pending: RequestQueue, donors: seq<RequestQueue>)
      returns (result: int, ghost trail: seq<Moment>)
      requires Valid() && Paired(pending) && forall i :: 0 <= i < |donors| ==> Donor(donors[i], pending)
      modifies this, queue, queue.pieces, queue.order, pending, pending.pieces, pending.order
      ensures Paired(pending) && (result >= 0 ==> Valid()) && Mixed(pending)
      ensures forall i :: 0 <= i < |donors| ==> Donor(donors[i], pending)
      ensures Safe(queue.geo) && old(Calm()) && Usual(queue.geo, e) ==> !reset && (result >= 0 ==> Tame())
      ensures Done(queue.geo, e, old(Lists(donors)), old(Now(pending)), Now(pending), trail, result >= 0)
    {
      hide Valid, Loose, Ready, Paired, Donor, MaxReqQueueLength, Safe, Peak, Usual, Requested, Overtaken, ByItself;
      hide Counted;
      result, trail := 0, [];
      PairParts(pending);
      if e.Request? {
        result, trail := RequestCheck(pending, donors, e.plan, e.due, e.wanted);
      } else if e.TakeOver? {
        Overtake(e.d, e.idx, pending, donors);
      } else {
        result := AloneCalm(e, pending, donors);
      }
    }

    /** As Alone: it leaves a calm peer calm. */
    method AloneCalm(e: Event, pending: RequestQueue, donors: seq<RequestQueue>) returns (result: int)
      requires Valid() && Paired(pending) && forall i :: 0 <= i < |donors| ==> Donor(donors[i], pending)
      modifies this, queue, queue.pieces, queue.order
      ensures Paired(pending) && (result >= 0 ==> Valid()) && Mixed(pending)
      ensures forall i :: 0 <= i < |donors| ==> Donor(donors[i], pending)
      ensures Safe(queue.geo) && old(Calm()) && Usual(queue.geo, e) ==> !reset && (result >= 0 ==> Tame())
      ensures Counted(queue.geo, old(Mine()), Mine()) && ByItself(queue.geo, e, old(Mine()), Mine(), result >= 0)
    {
      hide Valid, Loose, Ready, Paired, Donor, MaxReqQueueLength, Safe, Peak, ByItself;
      Restate();
      Opened();
      result := Alone(e, pending, donors);
      LooseNow(pending);
      SafeLess(queue.geo, |queue.order|);
    }

    lemma LooseNow(pending: RequestQueue)
      requires Paired(pending)
      ensures Loose() && |queue.order| <= Peak(queue.geo) && queue.n <= |queue.order|
    {
      Opened();
    }

    /** A queue that is not of the greatest length is within the limit. */
    static lemma SafeLess(geo: Geometry, q: nat)
      ensures Safe(geo) && q < Peak(geo) ==> q <= MaxReqQueueLength(geo)
    {
    }

    /** Nothing more has been queued. */
    lemma NoneTame()
      requires Valid() && !reset && Safe(queue.geo)
      requires queue.n <= MaxReqQueueLength(queue.geo) || queue.lists == []
      requires queue.lists == [] || |queue.order| < WholeSlices(queue.geo) || reqSend <= reqOut
      ensures Tame()
    {
      hide RequestQueue.Linked;
      Opened();
      EmptyNow();
    }

    /** A queue of `q` slices has got a piece more. */
    lemma GrownTame(q: nat)
      requires Loose() && Safe(queue.geo) && q < WholeSlices(queue.geo)
      requires queue.n <= q && |queue.order| <= q + queue.geo.NSlices(0)
      ensures q == 0 || !standby ==> Tamable()
      ensures q == 0 ==> Tame()
    {
      hide Geometry.NSlices;
      Opened();
      if queue.geo.PieceCount() > 0 {
        FirstMost(queue.geo, 0);
      }
    }

    /** A message goes to the peer; false if the connection fails. */
    method Transmit() returns (ok: bool)
      modifies this`credit
      ensures ok == (old(credit) > 0) && credit == if ok then old(credit) - 1 else 0
    {
      ok := credit > 0;
      if ok {
        credit := credit - 1;
      }
    }
  }
}
