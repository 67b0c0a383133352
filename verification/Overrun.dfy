/** Runs of one peer that make its queue as long as it can become, and its counter be taken for one below zero (peer.cpp). */
module Overruns {
  import opened Options
  import opened Pieces
  import opened QueueSlices
  import opened SliceGrid
  import opened RequestQueues
  import opened QueueBounds
  import opened PeerEvents
  import opened Peers

  /** How many requests a fast peer is to have outstanding: more than will be. */
  const MANY: Count := 11

  /** A peer with a right counter, and nothing pending. */
  ghost predicate Clear(p: Peer, pending: RequestQueue)
    reads p, p.queue, p.queue.pieces, p.queue.order, pending, pending.pieces, pending.order
  {
    && p.Valid() && p.Paired(pending) && pending.lists == [] && !p.reset && !p.standby && !p.remoteChoked
    && pending.pieces == [] && pending.order == []
  }

  lemma NothingPending(p: Peer, pending: RequestQueue)
    requires p.Loose() && Ready(pending, p.queue.geo) && pending.lists == [] && p.queue != pending
    ensures p.Paired(pending) && pending.pieces == [] && pending.order == []
  {
    hide RequestQueue.Linked;
    pending.WhenEmpty();
    pending.ValidParts();
  }

  /** What the sizes have to be like. */
  ghost predicate Long(geo: Geometry) {
    && Configured(geo) && 0 < WholeSlices(geo) && geo.NSlices(0) == WholeSlices(geo) + 1
    && AllSlices(geo) >= 2 * WholeSlices(geo)
  }

  lemma LongFacts(geo: Geometry)
    requires Long(geo)
    ensures Sized(geo) && 2 * WholeSlices(geo) - 1 <= MaxReqQueueLength(geo) && geo.PieceCount() > 0
    ensures WholeSlices(geo) > 1 ==>
      geo.PieceCount() > 1 && WholeSlices(geo) - 1 <= geo.NSlices(1) <= WholeSlices(geo) + 1
    ensures WholeSlices(geo) < 0x40_0000
  {
    hide Geometry.NSlices, WholeSlices, MaxReqQueueLength, Configured, Geometry.PieceCount, Sized;
    LongSizes(geo);
    assert geo.PieceCount() > 0;
    assert SlicesTo(geo, 0) == 0 && SlicesTo(geo, 1) == geo.NSlices(0);
    if WholeSlices(geo) > 1 {
      assert SlicesTo(geo, 2) == SlicesTo(geo, 1) + geo.NSlices(1);
      assert geo.PieceCount() > 1;
      FirstMost(geo, 1);
      if geo.PieceCount() > 2 {
        SecondFull(geo);
      }
    }
  }

  lemma LongSizes(geo: Geometry)
    requires Configured(geo) && 0 < WholeSlices(geo)
    ensures Sized(geo) && 2 * WholeSlices(geo) - 1 <= MaxReqQueueLength(geo) && WholeSlices(geo) < 0x40_0000
  {
    ConfiguredIff(geo);
    hide Configured;
    var q := geo.pieceLength / MIN_SLICE_SIZE;
    DivRange(geo.pieceLength, q, MIN_SLICE_SIZE);
    DivRange(geo.pieceLength, WholeSlices(geo), geo.sliceSize);
  }

  lemma SecondFull(geo: Geometry)
    requires geo.PieceCount() > 2
    ensures geo.NSlices(1) == geo.NSlices(0)
  {
    NPiecesCases(geo.total, geo.pieceLength);
    assert geo.Length(0) == geo.Length(1) == geo.pieceLength;
  }

  /** As many more requests as the batch, the target and the queue allow. */
  function Least(batch: nat, target: nat, queued: nat, now: nat): nat {
    var m := Min(Min(batch, target), queued);
    if m < now then now else m
  }

  /** A plan of one new piece, for which there is room. */
  lemma AskedNew(geo: Geometry, idx: nat, others: seq<seq<seq<Slice>>>, a: Moment, b: Moment, trail: seq<Moment>, ok: bool)
    requires Asking(geo, [Choice({}, false, New(idx))], others, trail, ok) && trail[0] == a && trail[|trail| - 1] == b
    requires idx < geo.PieceCount() && !Has(a.mine.lists, idx) && |Flat(a.mine.lists)| < WholeSlices(geo)
    requires !a.mine.standby && a.mine.out <= MaxReqQueueLength(geo) && a.mine.credit >= 5 && a.mine.n == a.mine.out
    ensures ok && b.pending == a.pending && |b.mine.lists| == |a.mine.lists| + 1
    ensures b.mine.lists[..|a.mine.lists|] == a.mine.lists && geo.Tiles(idx, b.mine.lists[|a.mine.lists|])
    ensures b.mine.out == Least(a.mine.out + 5, a.mine.target, |Flat(b.mine.lists)|, a.mine.out) && !b.mine.standby
    ensures b.mine.target ==
      if b.mine.out < a.mine.target && |Flat(b.mine.lists)| >= WholeSlices(geo) then b.mine.out else a.mine.target
    ensures b.mine.choked == a.mine.choked && b.mine.reset == a.mine.reset
  {
    hide Flat, Find, Geometry.Tiles, MaxReqQueueLength, WholeSlices;
    var plan := [Choice({}, false, New(idx))];
    assert Later(plan) == [];
    assert Chosen(geo, Next(plan), others, trail[0], trail[1], true, true);
    AskedNothing(geo, others, trail[1..], ok);
  }

  /** What is queued is sent, and nothing more asked for. */
  lemma AskedNothing(geo: Geometry, others: seq<seq<seq<Slice>>>, trail: seq<Moment>, ok: bool)
    requires Sending(geo, [], others, trail, ok) && trail[0].mine.credit >= 5
    requires !trail[0].mine.standby && trail[0].mine.out <= MaxReqQueueLength(geo)
    ensures var c := Batched(trail[0].mine);
      ok && trail[|trail| - 1] == trail[0].(mine := c.(target :=
        if c.out < c.target && |Flat(c.lists)| >= WholeSlices(geo) then c.out else c.target))
  {
    hide Flat, Find, MaxReqQueueLength, WholeSlices;
    var c := Batched(trail[0].mine);
    if c.out < c.target {
      assert Asking(geo, [], others, trail[1..], ok);
      assert Chosen(geo, Next([]), others, trail[1], trail[2], false, ok);
    }
  }

  /** What is queued is sent first, and then more asked for. */
  lemma SentFirst(geo: Geometry, plan: seq<Choice>, others: seq<seq<seq<Slice>>>, trail: seq<Moment>, ok: bool)
    requires Sending(geo, plan, others, trail, ok) && trail[0].mine.credit >= 5 && !trail[0].mine.standby
    requires trail[0].mine.out <= MaxReqQueueLength(geo)
    requires trail[0].mine.out + Portion(trail[0].mine) < trail[0].mine.target
    ensures |trail| > 2 && trail[1] == trail[0].(mine := Batched(trail[0].mine)) && Asking(geo, plan, others, trail[1..], ok)
  {
    hide Flat, MaxReqQueueLength;
  }

  /** How many requests are outstanding when the next piece is asked for. */
  ghost function Mid(a: Account): nat {
    if a.lists == [] then a.out else a.out + Portion(a)
  }

  lemma MidAnyway(a: Account, credit: nat)
    ensures Mid(a.(credit := credit)) == Mid(a)
  {
  }

  /** As AskedNew, for RequestCheck. */
  lemma RequestedNew(geo: Geometry, idx: nat, others: seq<seq<seq<Slice>>>, a: Moment, b: Moment, trail: seq<Moment>,
                     ok: bool)
    requires Requested(geo, [Choice({}, false, New(idx))], true, true, others, a, b, trail, ok) && a.mine.credit == 11
    requires idx < geo.PieceCount() && !Has(a.mine.lists, idx) && |Flat(a.mine.lists)| < WholeSlices(geo)
    requires !a.mine.standby && !a.mine.choked && a.mine.out <= MaxReqQueueLength(geo) && a.mine.n == a.mine.out
    requires a.mine.lists != [] ==> Mid(a.mine) < a.mine.target && Mid(a.mine) <= MaxReqQueueLength(geo)
    ensures ok && b.pending == a.pending && |b.mine.lists| == |a.mine.lists| + 1
    ensures b.mine.lists[..|a.mine.lists|] == a.mine.lists && geo.Tiles(idx, b.mine.lists[|a.mine.lists|])
    ensures b.mine.out == Least(Mid(a.mine) + 5, a.mine.target, |Flat(b.mine.lists)|, Mid(a.mine)) && !b.mine.standby
    ensures b.mine.target ==
      if b.mine.out < a.mine.target && |Flat(b.mine.lists)| >= WholeSlices(geo) then b.mine.out else a.mine.target
    ensures b.mine.choked == a.mine.choked && b.mine.reset == a.mine.reset
  {
    hide Flat, Find, Geometry.Tiles, MaxReqQueueLength, WholeSlices, Asking, Sending, Least, Has;
    var plan := [Choice({}, false, New(idx))];
    assert MoreAsked(geo, plan, true, others, Told(a), b, trail, ok);
    var first := Told(a).(mine := Checked(geo, Told(a).mine));
    if a.mine.lists == [] {
      AskedNew(geo, idx, others, first, b, trail, ok);
    } else {
      SentFirst(geo, plan, others, trail, ok);
      AskedNew(geo, idx, others, trail[1], b, trail[1..], ok);
    }
  }

  lemma MidFew(p: Peer)
    requires p.Valid() && !p.reset
    ensures p.reqOut <= Mid(p.Mine()) <= p.reqOut + 5 && Mid(p.Mine()) <= |p.queue.order|
  {
    hide RequestQueue.Linked, Flat;
    p.Restate();
    p.Opened();
    FlatNow(p.queue);
    p.EmptyNow();
  }

  /** Asks for one new piece, once what is queued has been sent. */
  method Ask(p: Peer, pending: RequestQueue, idx: nat) returns (ghost list: seq<Slice>)
    requires Clear(p, pending) && p.reqOut <= MaxReqQueueLength(p.queue.geo)
    requires |p.queue.order| < WholeSlices(p.queue.geo) && idx < p.queue.geo.PieceCount() && !Has(p.queue.lists, idx)
    requires p.queue.lists != [] ==> Mid(p.Mine()) < p.reqSend && Mid(p.Mine()) <= MaxReqQueueLength(p.queue.geo)
    modifies p, p.queue, p.queue.pieces, p.queue.order, pending, pending.pieces, pending.order
    ensures Clear(p, pending) && p.queue.lists == old(p.queue.lists) + [list] && p.queue.Grown()
    ensures |list| == p.queue.geo.NSlices(idx) && list != [] && forall k :: 0 <= k < |list| ==> list[k].index == idx
    ensures |p.queue.order| == |old(p.queue.order)| + |list|
    ensures p.reqOut == Least(old(Mid(p.Mine())) + 5, old(p.reqSend), |p.queue.order|, old(Mid(p.Mine())))
    ensures p.reqSend ==
      if p.reqOut < old(p.reqSend) && |p.queue.order| >= WholeSlices(p.queue.geo) then p.reqOut else old(p.reqSend)
  {
    hide Peer.Valid, Peer.Loose, Ready, Find, Has, Peer.Donor, MaxReqQueueLength, RequestQueue.Linked, Geometry.NSlices;
    hide RequestQueue.Valid, Flat, Requested, WholeSlices, Geometry.Tiles, Mid, Least, Safe, Peer.Tame, Peer.Calm;
    ghost var before := p.queue.lists;
    p.Restate();
    p.Opened();
    FlatNow(p.queue);
    MidAnyway(p.Mine(), 11);
    p.credit := 11;
    ghost var start := p.Now(pending);
    var r;
    ghost var trail;
    r, trail := p.RequestCheck(pending, [], [Choice({}, false, New(idx))], true, true);
    assert Peer.Lists([]) == [];
    RequestedNew(p.queue.geo, idx, Peer.Lists([]), start, p.Now(pending), trail, r >= 0);
    p.Restate();
    p.Opened();
    FlatNow(p.queue);
    NothingPending(p, pending);
    list := Gained(p, before, idx);
  }

  /** What a new piece adds to the queue. */
  lemma Gained(p: Peer, before: seq<seq<Slice>>, idx: nat) returns (list: seq<Slice>)
    requires p.Valid() && p.Follows(before, idx) && idx < p.queue.geo.PieceCount()
    ensures p.Loose() && p.queue.lists == before + [list] && |p.queue.order| == |Flat(before)| + |list|
    ensures |list| == p.queue.geo.NSlices(idx) && list != [] && forall k :: 0 <= k < |list| ==> list[k].index == idx
    ensures p.reqOut < 0x1_0000_0000 && (!p.reset ==> p.reqOut == p.queue.n)
  {
    hide Peer.Valid, Peer.Loose, RequestQueue.Linked, Geometry.NSlices, RequestQueue.Valid, Flat;
    p.Restate();
    p.Opened();
    FlatNow(p.queue);
    list := p.queue.lists[|before|];
    assert p.queue.lists == before + [list];
    FlatAppend(before, list);
    Tiled(p.queue.geo, idx, list);
  }

  lemma Tiled(geo: Geometry, idx: nat, list: seq<Slice>)
    requires idx < geo.PieceCount() && geo.Tiles(idx, list)
    ensures |list| == geo.NSlices(idx) && list != [] && forall k :: 0 <= k < |list| ==> list[k].index == idx
  {
    NSlicesBound(geo, idx);
  }

  lemma FlatNow(q: RequestQueue)
    requires q.Valid()
    ensures q.order == Flat(q.lists) && Shape(q.lists)
  {
    q.ValidParts();
    q.LinkedNow();
  }

  lemma FirstSlice(lists: seq<seq<Slice>>)
    requires Shape(lists) && lists != []
    ensures var s := lists[0][0];
      && Holds(lists, s.index, s.offset, s.length) && Slot(lists, s.index, s.offset, s.length) == 0
      && Less(lists, s.index, s.offset, s.length) == Removed(lists, 0, 0) && Flat(lists) != [] && Flat(lists)[0] == s
  {
    FindIs(lists, 0);
    assert lists[..0] == [] && Flat([]) == [];
  }

  /** The first slice arrives, and is saved. */
  method Get(p: Peer, pending: RequestQueue)
    requires Clear(p, pending) && p.reqOut > 0
    modifies p, p.queue, p.queue.pieces, p.queue.order
    ensures Clear(p, pending) && p.reqSend == MANY && p.reqOut == old(p.reqOut) - 1 && p.queue.Grown()
    ensures old(p.queue.lists) != [] && |old(p.queue.lists[0])| > 0 && p.queue.lists == Removed(old(p.queue.lists), 0, 0)
    ensures |p.queue.order| == |old(p.queue.order)| - 1
  {
    hide Peer.Valid, Peer.Loose, Ready, Find, Holds, Slot, Less, Removed, Flat, RequestQueue.Linked, RequestQueue.Valid;
    p.Restate();
    p.Opened();
    p.PairParts(pending);
    FlatNow(p.queue);
    ghost var lists := p.queue.lists;
    if lists == [] {
      p.EmptyNow();
    }
    FirstSlice(lists);
    var s := p.queue.Peek();
    p.PieceDeliver(s.index, s.offset, s.length, false, true, MANY);
    p.Restate();
    FlatRemoved(lists, 0, 0);
    FlatNow(p.queue);
    NothingPending(p, pending);
  }

  /** All that has been sent of the only piece is cancelled, and the piece is dropped. If anything has been sent, the first
      message names no piece. */
  method Drop(p: Peer, pending: RequestQueue) returns (names: seq<Option<nat>>)
    requires Clear(p, pending) && |p.queue.lists| == 1 && p.reqOut <= MaxReqQueueLength(p.queue.geo)
    modifies p, p.queue, p.queue.pieces, p.queue.order
    ensures Clear(p, pending) && p.queue.lists == [] && p.reqOut == 0 && p.queue.order == []
    ensures p.reqSend == old(p.reqSend) && p.queue.Grown()
    ensures old(p.reqOut) > 0 ==> None in names
  {
    hide Peer.Valid, Peer.Loose, Ready, Find, Holds, Slot, Flat, RequestQueue.Linked, RequestQueue.Valid;
    hide MaxReqQueueLength, Start;
    p.Restate();
    p.Opened();
    p.PairParts(pending);
    FlatNow(p.queue);
    FindIs(p.queue.lists, 0);
    var s := p.queue.Peek();
    FirstSlice(p.queue.lists);
    var n := p.queue.Qsize();
    p.credit := n;
    var r;
    r, names := p.CancelPiece(s.index);
    p.Restate();
    p.EmptyNow();
    NothingPending(p, pending);
  }

  /** All that the queue holds is new. */
  twostate predicate AllNew(new p: Peer)
    reads p.queue`pieces, p.queue`order
  {
    && (forall j :: 0 <= j < |p.queue.pieces| ==> fresh(p.queue.pieces[j]))
    && (forall j :: 0 <= j < |p.queue.order| ==> fresh(p.queue.order[j]))
  }

  /** A new peer that answers requests, before anything is asked of it. */
  method Meet(geo: Geometry) returns (p: Peer, pending: RequestQueue)
    requires Long(geo)
    ensures fresh(p) && fresh(p.queue) && fresh(pending) && p.queue.geo == geo && AllNew(p)
    ensures Clear(p, pending) && p.queue.lists == [] && p.queue.order == [] && p.reqOut == 0 && p.reqSend == 5
  {
    hide Peer.Valid, Peer.Loose, Ready, RequestQueue.Linked, RequestQueue.Valid;
    LongFacts(geo);
    p := new Peer(geo);
    pending := new RequestQueue(geo, true);
    FirstPending(pending);
    p.Unchoked();
    p.Restate();
    NothingPending(p, pending);
  }

  lemma FirstPending(pending: RequestQueue)
    requires pending.Valid() && pending.isPending && pending.lists == []
    ensures Ready(pending, pending.geo)
  {
    hide RequestQueue.Linked;
    pending.WhenEmpty();
  }

  /** A peer of which nothing is asked, and which is to have many requests outstanding: its first piece had to be given up
      after a slice had come. The cancel messages for the rest start with one that names no piece. */
  method Trusted(geo: Geometry) returns (p: Peer, pending: RequestQueue, names: seq<Option<nat>>)
    requires Long(geo)
    ensures fresh(p) && fresh(p.queue) && fresh(pending) && p.queue.geo == geo && AllNew(p)
    ensures Clear(p, pending) && p.queue.lists == [] && p.queue.order == [] && p.reqOut == 0 && p.reqSend == MANY
    ensures None in names
  {
    hide Peer.Valid, Peer.Loose, Ready, Find, Flat, RequestQueue.Linked, RequestQueue.Valid, MaxReqQueueLength;
    hide Geometry.NSlices;
    hide Peer.Paired, WholeSlices;
    LongFacts(geo);
    p, pending := Meet(geo);
    ghost var list := Ask(p, pending, 0);
    Get(p, pending);
    names := Drop(p, pending);
  }

  /** One slice less than go into a piece whole is queued, of another piece than the first. */
  method AlmostWhole(geo: Geometry) returns (p: Peer, pending: RequestQueue)
    requires Long(geo)
    ensures fresh(p) && fresh(p.queue) && fresh(pending) && p.queue.geo == geo && AllNew(p)
    ensures Clear(p, pending) && |p.queue.order| == WholeSlices(geo) - 1 && p.reqSend == MANY && !Has(p.queue.lists, 0)
    ensures p.reqOut <= 5 && p.reqOut <= |p.queue.order| && (WholeSlices(geo) <= 4 ==> p.reqOut == |p.queue.order|)
  {
    hide Peer.Valid, Peer.Loose, Ready, Find, Flat, RequestQueue.Linked, RequestQueue.Valid, MaxReqQueueLength;
    hide Geometry.NSlices;
    hide Peer.Paired, WholeSlices;
    LongFacts(geo);
    var names;
    p, pending, names := Trusted(geo);
    if WholeSlices(geo) > 1 {
      ghost var list := Ask(p, pending, 1);
      p.Restate();
      p.Opened();
      var n := p.queue.Qsize();
      while n >= WholeSlices(geo)
        invariant fresh(p.queue) && AllNew(p) && Clear(p, pending)
        invariant n == |p.queue.order| && WholeSlices(geo) - 1 <= n <= |list|
        invariant |p.queue.lists| == 1 && p.queue.lists[0] == list[|list| - n..] && (n < WholeSlices(geo) || n < |list| ==> p.reqSend == MANY)
        invariant p.reqOut == (if |list| < 5 then |list| else 5) - (|list| - n)
        decreases n
      {
        Get(p, pending);
        n := n - 1;
      }
    }
    NotThere(p.queue.lists);
  }

  lemma NotThere(lists: seq<seq<Slice>>)
    requires lists == [] || (|lists| == 1 && lists[0] != [] && lists[0][0].index == 1)
    ensures !Has(lists, 0)
  {
  }

  /** The queue becomes twice as long as slices go into a piece whole, which is more than is intended. */
  method Fill(geo: Geometry) returns (p: Peer, pending: RequestQueue)
    requires Long(geo)
    ensures fresh(p) && fresh(p.queue) && fresh(pending) && p.queue.geo == geo && AllNew(p)
    ensures Clear(p, pending) && |p.queue.order| == Peak(geo) == 2 * WholeSlices(geo) > ReqQueueLength(geo)
    ensures WholeSlices(geo) <= 4 ==> p.reqOut == SentCount(p.queue.order) == Peak(geo)
  {
    hide Peer.Valid, Peer.Loose, Ready, Find, Flat, RequestQueue.Linked, RequestQueue.Valid, MaxReqQueueLength;
    hide Geometry.NSlices;
    hide Peer.Paired, WholeSlices;
    LongFacts(geo);
    LongIff(geo);
    PeakMost(geo);
    p, pending := AlmostWhole(geo);
    MidFew(p);
    ghost var list := Ask(p, pending, 0);
    p.Exactly();
  }

  /** A count above the limit, though it is right, is set to zero by the next check. */
  method Trip(p: Peer, pending: RequestQueue)
    requires Clear(p, pending) && p.queue.order != [] && p.reqOut > MaxReqQueueLength(p.queue.geo)
    modifies p, p.queue, p.queue.pieces, p.queue.order, pending, pending.pieces, pending.order
    ensures p.Valid() && p.reqOut == 0 && p.reset
    ensures |p.queue.order| == |old(p.queue.order)| && SentCount(p.queue.order) == old(p.reqOut)
  {
    hide Peer.Valid, Peer.Loose, Ready, Find, Flat, RequestQueue.Linked, RequestQueue.Valid, MaxReqQueueLength;
    hide Peer.Paired;
    p.Restate();
    p.EmptyNow();
    p.Opened();
    FlatNow(p.queue);
    p.credit := 1;
    var r;
    ghost var trail;
    r, trail := p.RequestCheck(pending, [], [], false, true);
    p.Restate();
    p.Opened();
    FlatNow(p.queue);
    p.Exactly();
  }

  /** For unsafe sizes a correct counter is taken for one below zero, and then says that nothing is outstanding. */
  method Overrun(geo: Geometry) returns (p: Peer, pending: RequestQueue, before: nat)
    requires Configured(geo) && !Safe(geo)
    ensures p.Valid() && p.queue.geo == geo && before == SentCount(p.queue.order) == |p.queue.order| == 2 * WholeSlices(geo) > 0
    ensures p.reqOut == 0 && p.reset
  {
    hide Peer.Valid, Peer.Loose, Ready, Find, Flat, RequestQueue.Linked, RequestQueue.Valid, Geometry.NSlices;
    hide Peer.Paired;
    UnsafeIff(geo);
    p, pending := Fill(geo);
    before := p.reqOut;
    Trip(p, pending);
  }
}
