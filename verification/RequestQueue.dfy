/** The request queue of btrequest.cpp: a list of pieces, each a list of slices, and the next slice to send. */
module RequestQueues {
  import opened Sequences
  import opened Pieces
  import opened QueueSlices
  import opened SliceGrid
  import opened SliceShuffle

  class RequestQueue {
    const geo: Geometry
    /** Whether this is the queue of requests that no peer is serving. */
    const isPending: bool
    var head: Piece?
    var send: Slice?
    ghost var pieces: seq<Piece>
    ghost var lists: seq<seq<Slice>>
    /** How many slices have been sent. */
    ghost var n: nat

    /** The slices in the order in which they are to be sent. */
    ghost var order: seq<Slice>

    ghost predicate Linked()
      reads this`head, this`pieces, this`lists, this`order
      reads pieces`count, pieces`slices, pieces`next, order`next
    {
      && order == Flat(lists)
      && Distinct(pieces) && Shape(lists) && PieceList(pieces, head)
      && (NodesFlat(lists); Chains(pieces, lists))
    }

    ghost predicate Valid()
      reads this, pieces`count, pieces`slices, pieces`next, order`next, order`sent
    {
      Linked() && SentPrefix(order, n) && send == At(order, n)
    }

    /** The queue is made of objects in `r`. */
    ghost predicate Inside(r: set<object>)
      reads this`pieces, this`order
    {
      this in r && (forall p :: p in pieces ==> p in r) && (forall s :: s in order ==> s in r)
    }

    ghost predicate Apart(other: RequestQueue)
      reads this`pieces, this`order, other`pieces, other`order
    {
      && this != other
      && (forall p :: p in pieces ==> p !in other.pieces)
      && (forall s :: s in order ==> s !in other.order)
    }

    /** The queue holds nothing that it did not hold before. */
    twostate predicate Within()
      reads this`pieces, this`order
    {
      && (forall j :: 0 <= j < |pieces| ==> pieces[j] in old(pieces))
      && (forall j :: 0 <= j < |order| ==> order[j] in old(order))
    }

    /** The queue holds nothing that existed before and that it did not hold. */
    twostate predicate Grown()
      reads this`pieces, this`order
    {
      && (forall j :: 0 <= j < |pieces| ==> pieces[j] in old(pieces) || fresh(pieces[j]))
      && (forall j :: 0 <= j < |order| ==> order[j] in old(order) || fresh(order[j]))
    }

    constructor (geo: Geometry, isPending: bool)
      ensures Valid() && lists == [] && n == 0 && pieces == [] && order == []
      ensures this.geo == geo && this.isPending == isPending
    {
      this.geo, this.isPending := geo, isPending;
      head, send, pieces, lists, order, n := null, null, [], [], [], 0;
    }

    lemma LinkedParts()
      requires Linked()
      ensures order == Flat(lists) && Distinct(order) && Distinct(pieces)
      ensures Shape(lists) && PieceList(pieces, head)
      ensures |pieces| == |lists| && forall i :: 0 <= i < |pieces| ==> Chain(pieces[i], lists[i])
      ensures forall i :: 0 <= i < |lists| ==> Distinct(lists[i])
      ensures forall i, k :: 0 <= i < |lists| && 0 <= k < |lists[i]| ==>
        lists[i][k] in order && lists[i][k].index == lists[i][0].index
    {
      FlatDistinct(lists);
      NodesFlat(lists);
      forall i, k | 0 <= i < |lists| && 0 <= k < |lists[i]|
        ensures lists[i][k] in order && lists[i][k].index == lists[i][0].index
      {
        assert lists[i][k] in lists[i];
      }
    }

    lemma OrderParts()
      requires Linked()
      ensures order == Flat(lists) && Distinct(order) && |pieces| == |lists|
    {
      FlatDistinct(lists);
    }

    lemma ValidParts()
      requires Valid()
      ensures Linked() && SentPrefix(order, n) && n <= |order| && send == At(order, n)
      ensures order == Flat(lists) && Distinct(order) && |pieces| == |lists|
    {
      OrderParts();
    }

    lemma Behind(base: seq<seq<Slice>>, list: seq<Slice>)
      requires Valid() && lists == base + [list]
      ensures list != [] && Find(lists, list[0].index) == |base| && Distinct(list)
      ensures forall k :: 0 <= k < |list| ==> list[k].index == list[0].index
    {
      hide Flat;
      LinkedParts();
      assert lists[|base|] == list;
      FindIs(lists, |base|);
    }

    lemma LinkedNow()
      requires Valid()
      ensures Shape(lists) && |pieces| == |lists| && PieceList(pieces, head)
      ensures forall i :: 0 <= i < |pieces| ==> Chain(pieces[i], lists[i])
    {
    }

    lemma ToValid()
      requires Linked() && SentPrefix(order, n) && send == At(order, n)
      ensures Valid()
    {
    }

    lemma Assemble()
      requires order == Flat(lists) && Distinct(pieces) && Shape(lists) && PieceList(pieces, head)
      requires |pieces| == |lists| && forall i :: 0 <= i < |pieces| ==> Chain(pieces[i], lists[i])
      ensures Linked()
    {
    }

    /** Puts `slice` at the end of piece `i`. */
    method LinkSlice(piece: Piece, slice: Slice, ghost i: nat)
      requires Linked() && i < |pieces| && piece == pieces[i]
      requires slice.index == lists[i][0].index && slice !in order && slice.next == null
      modifies this`lists, this`order, piece`count, order`next
      ensures Linked() && lists == old(lists)[i := old(lists)[i] + [slice]]
    {
      hide Shape, PieceList, Flat;
      LinkedParts();
      ShapeApart(lists, i, slice);
      ghost var list, k := lists[i], 0;
      var point := piece.slices;
      while point.next != null
        invariant 0 <= k < |list| && point == list[k]
        decreases |list| - k
      {
        point, k := point.next, k + 1;
      }
      ShapeApart(lists, i, point);
      ShapeUpdate(lists, i, list + [slice]);
      point.next := slice;
      piece.count := piece.count + 1;
      lists := lists[i := list + [slice]];
      order := Flat(lists);
      assert Chain(piece, list + [slice]);
      Assemble();
    }

    /** Puts `piece` at the end of the queue. */
    method LinkPiece(piece: Piece, last: Piece?, ghost list: seq<Slice>)
      requires Linked() && last == PieceAt(pieces, |pieces| - 1)
      requires piece !in pieces && piece.next == null && Chain(piece, list) && list != [] && Distinct(list)
      requires forall s :: s in list ==> s.index == list[0].index
      requires Find(lists, list[0].index) == |lists|
      modifies this`head, this`pieces, this`lists, this`order, pieces`next
      ensures Linked() && pieces == old(pieces) + [piece] && lists == old(lists) + [list]
    {
      hide Shape, Flat, Linked, Find;
      LinkedParts();
      ShapeAppend(lists, list);
      if last != null {
        last.next := piece;
      } else {
        head := piece;
      }
      pieces, lists := pieces + [piece], lists + [list];
      order := Flat(lists);
      Assemble();
    }

    /** Takes piece `i` out of the queue. */
    method UnlinkPiece(piece: Piece, prev: Piece?, ghost i: nat)
      requires Linked() && i < |pieces| && piece == pieces[i] && prev == PieceAt(pieces, i - 1)
      modifies this`head, this`pieces, this`lists, this`order, pieces`next
      ensures Linked() && pieces == Without(old(pieces), i) && lists == Without(old(lists), i)
      ensures piece !in pieces && Chain(piece, old(lists[i]))
    {
      hide Shape, Flat;
      LinkedParts();
      WithoutDistinct(pieces, i);
      ShapeWithout(lists, i);
      assert forall j :: 0 <= j < |pieces| && j != i - 1 ==> pieces[j] != prev;
      if prev != null {
        prev.next := piece.next;
      } else {
        head := piece.next;
      }
      PieceListWithout(pieces, head, i);
      pieces, lists := Without(pieces, i), Without(lists, i);
      order := Flat(lists);
      Assemble();
    }

    /** Takes slice `k` out of piece `i`, which has others. */
    method UnlinkSlice(piece: Piece, slice: Slice, prev: Slice?, ghost i: nat, ghost k: nat)
      requires Linked() && i < |pieces| && piece == pieces[i] && |lists[i]| > 1
      requires k < |lists[i]| && slice == lists[i][k] && prev == At(lists[i], k - 1)
      modifies this`lists, this`order, piece`count, piece`slices, order`next
      ensures Linked() && lists == old(lists)[i := Without(old(lists)[i], k)]
    {
      hide Shape, PieceList, Flat;
      LinkedParts();
      ghost var list := lists[i];
      WithoutDistinct(list, k);
      ShapeUpdate(lists, i, Without(list, k));
      ShapeApart(lists, i, list[if k > 0 then k - 1 else k]);
      if prev != null {
        prev.next := slice.next;
      } else {
        piece.slices := slice.next;
      }
      piece.count := piece.count - 1;
      lists := lists[i := Without(list, k)];
      order := Flat(lists);
      assert Chain(piece, Without(list, k));
      Assemble();
    }

    /** Piece `idx`, its place, and the piece before it. */
    method FindPiece(idx: nat) returns (piece: Piece?, prev: Piece?, ghost i: nat)
      requires Linked()
      ensures i == Find(lists, idx) && piece == PieceAt(pieces, i) && prev == PieceAt(pieces, i - 1)
    {
      piece, prev, i := head, null, 0;
      while piece != null && piece.slices.index != idx
        invariant 0 <= i <= |pieces| && piece == PieceAt(pieces, i) && prev == PieceAt(pieces, i - 1)
        invariant forall j :: 0 <= j < i ==> lists[j][0].index != idx
        decreases |pieces| - i
      {
        prev, piece, i := piece, piece.next, i + 1;
      }
    }

    /** The first slice of piece `idx` with that offset and length, and the slice before it. */
    method FindSlice(idx: nat, off: nat, len: nat) returns (slice: Slice?, prev: Slice?, ghost k: nat)
      requires Linked()
      ensures Find(lists, idx) == |lists| ==> slice == null
      ensures Find(lists, idx) < |lists| ==>
        var list := lists[Find(lists, idx)];
        k == FindIn(list, off, len) && slice == At(list, k) && prev == At(list, k - 1)
    {
      slice, prev, k := null, null, 0;
      var piece, _, i := FindPiece(idx);
      if piece != null {
        ghost var list := lists[i];
        assert Chain(piece, list);
        slice := piece.slices;
        while slice != null
          invariant 0 <= k <= |list| && slice == At(list, k) && prev == At(list, k - 1)
          invariant forall j :: 0 <= j < k ==> !Matches(list[j], off, len)
          decreases |list| - k
        {
          if slice.index == idx && slice.offset == off && slice.length == len {
            break;
          }
          prev, slice, k := slice, slice.next, k + 1;
        }
      }
    }

    /** What comes after slice `k` of piece `i`. */
    method Following(slice: Slice, ghost i: nat, ghost k: nat) returns (next: Slice?)
      requires Linked() && i < |lists| && k < |lists[i]| && slice == lists[i][k]
      ensures next == At(order, Start(lists, i) + k + 1)
    {
      FlatNext(lists, i, k);
      assert Chain(pieces[i], lists[i]);
      next := slice.next;
      if next == null {
        var piece, _, j := FindPiece(slice.index);
        FindIs(lists, i);
        if piece.next != null {
          assert Chain(pieces[i + 1], lists[i + 1]);
          next := piece.next.slices;
        }
      }
    }

    /** The first slice. */
    method Peek() returns (slice: Slice?)
      requires Valid()
      ensures slice == At(order, 0)
    {
      LinkedNow();
      if head == null {
        return null;
      }
      FlatNext(lists, 0, 0);
      assert Chain(pieces[0], lists[0]);
      slice := head.slices;
    }

    /** The first slice of piece `i`. */
    method PeekPiece(idx: nat, ghost i: nat) returns (slice: Slice)
      requires Linked() && i < |lists| && idx == lists[i][0].index
      ensures slice == lists[i][0] == At(order, Start(lists, i))
    {
      hide Flat;
      LinkedParts();
      FindIs(lists, i);
      FlatNext(lists, i, 0);
      var piece, _, j := FindPiece(idx);
      slice := piece.slices;
    }

    /** The first slice of a piece, if there is one. */
    method First(idx: nat) returns (slice: Slice?)
      requires Valid()
      ensures slice == if Has(lists, idx) then lists[Find(lists, idx)][0] else null
    {
      hide Find;
      LinkedParts();
      var piece, _, i := FindPiece(idx);
      slice := if piece != null then piece.slices else null;
    }

    /** The failsafe finds nothing to fix. */
    method FixSend() returns (fixed: Slice?)
      requires Valid()
      modifies this`send
      ensures send == old(send) == fixed
    {
      if head == null {
        send := null;
        return null;
      }
      ghost var m: nat := n;
      var piece: Piece? := null;
      if send != null {
        ghost var i, k := Locate(lists, n);
        var found, _, j := FindPiece(send.index);
        FindIs(lists, i);
        piece := found;
      }
      if piece == null {
        assert Chain(pieces[0], lists[0]);
        FlatNext(lists, 0, 0);
        send, m := head.slices, 0;
      }
      while send != null && send.sent
        invariant m <= n && send == At(order, m)
        decreases n - m
      {
        ghost var i, k := Locate(lists, m);
        send := Following(send, i, k);
        m := m + 1;
      }
      fixed := send;
    }

    /** Marks a slice as sent, and moves on if it is the one that is to be sent next. */
    method MarkSent(timestamp: nat, slice: Slice, ghost i: nat, ghost k: nat)
      requires Linked() && i < |lists| && k < |lists[i]| && slice == lists[i][k]
      modifies this`send, slice`sent, slice`reqtime
      ensures slice.sent && slice.reqtime == timestamp
      ensures send == if old(send) == slice then At(order, Start(lists, i) + k + 1) else old(send)
    {
      slice.reqtime := timestamp;
      slice.sent := true;
      if send == slice {
        send := Following(slice, i, k);
      }
    }

    /** Sends the next slice, if there is one. */
    method SentNext(timestamp: nat)
      requires Valid()
      modifies this`send, this`n, order`sent, order`reqtime
      ensures Valid() && n == if old(n) < |order| then old(n) + 1 else old(n)
      ensures old(n) < n ==> order[old(n)].reqtime == timestamp
    {
      hide Linked;
      OrderParts();
      var slice := send;
      if slice == null {
        slice := FixSend();
      }
      if slice == null {
        return;
      }
      ghost var i, k := Locate(lists, n);
      ghost var f, m := order, n;
      assert forall j :: 0 <= j < |f| && j != m ==> f[j] != f[m];
      MarkSent(timestamp, slice, i, k);
      n := m + 1;
      assert forall j :: 0 <= j < |f| && j != m ==> f[j].sent == old(f[j].sent);
    }

    /** Puts a new slice at the end of its piece, which is made if there is none. */
    method Enqueue(slice: Slice) returns (piece: Piece)
      requires Linked() && slice !in order && slice.next == null
      modifies this`head, this`pieces, this`lists, this`order
      modifies pieces`next, pieces`count, order`next
      ensures Linked() && lists == Added(old(lists), slice)
      ensures forall j :: 0 <= j < |pieces| ==> pieces[j] in old(pieces) || fresh(pieces[j])
      ensures order == Flat(Added(old(lists), slice))
      ensures piece.next == null <==> Place(old(lists), slice.index) == |old(order)|
    {
      hide Linked, Flat;
      LinkedParts();
      var found, last, i := FindPiece(slice.index);
      if found != null {
        StartMonotone(lists, i + 1, |lists|);
        assert found.next == PieceAt(pieces, i + 1);
        LinkSlice(found, slice, i);
        piece := found;
      } else {
        piece := new Piece();
        piece.slices, piece.count := slice, 1;
        LinkPiece(piece, last, [slice]);
      }
      LinkedParts();
    }

    /** Adds a slice at the end of its piece. The cursor is right afterwards unless slices behind it have been sent. */
    method Add(idx: nat, off: nat, len: nat) returns (ghost s: Slice)
      requires Valid()
      modifies this`head, this`send, this`pieces, this`lists, this`order
      modifies pieces`next, pieces`count, order`next
      ensures fresh(s) && s.index == idx && Matches(s, off, len) && !s.sent
      ensures Linked() && lists == Added(old(lists), s)
      ensures forall j :: 0 <= j < |pieces| ==> pieces[j] in old(pieces) || fresh(pieces[j])
      ensures order == old(order)[..Place(old(lists), idx)] + [s] + old(order)[Place(old(lists), idx)..]
      ensures send == if old(send) == null && Place(old(lists), idx) == |old(order)| then s else old(send)
      ensures Valid() <==> n < Place(old(lists), idx) || n == Place(old(lists), idx) == |old(order)|
    {
      hide Linked, Flat;
      LinkedParts();
      ghost var f, q := order, Place(lists, idx);
      var slice := new Slice(idx, off, len);
      s := slice;
      FlatAdded(lists, s);
      var piece := Enqueue(slice);
      if send == null && piece.next == null {
        send := slice;
      }
      GrowCursor(f, q, s, n);
    }

    /** Piece `i` is gone, and so are its sent slices from the count. */
    ghost predicate Lost(before: seq<seq<Slice>>, sent: nat, i: nat)
      requires i < |before|
      reads this`lists, this`n
    {
      lists == Without(before, i) && n == Cut(sent, Start(before, i), Start(before, i + 1))
    }

    /** Moves the cursor past piece `i` if it is there. */
    method SkipPiece(piece: Piece, ghost i: nat)
      requires Valid() && i < |pieces| && piece == pieces[i]
      modifies this`send
      ensures Start(lists, i) <= Start(lists, i + 1) <= |order|
      ensures send == At(order, if Start(lists, i) <= n < Start(lists, i + 1) then Start(lists, i + 1) else n)
    {
      hide Linked, Flat, Find;
      LinkedParts();
      FlatSplit(lists, i);
      FlatNext(lists, i, |lists[i]| - 1);
      if n < |order| {
        IndexPlace(lists, n, i);
      }
      if send != null && send.index == piece.slices.index {
        send := if piece.next != null then piece.next.slices else null;
      }
    }

    /** Takes piece `i` out, and moves the cursor past it. */
    method TakeOut(piece: Piece, prev: Piece?, ghost i: nat)
      requires Valid() && i < |pieces| && piece == pieces[i] && prev == PieceAt(pieces, i - 1)
      modifies this, pieces`next
      ensures Valid() && pieces == Without(old(pieces), i) && Lost(old(lists), old(n), i)
      ensures Within()
      ensures Start(old(lists), i) <= Start(old(lists), i + 1) <= |old(order)|
      ensures order == old(order)[..Start(old(lists), i)] + old(order)[Start(old(lists), i + 1)..]
      ensures piece.next == null && piece !in pieces && Chain(piece, old(lists[i]))
    {
      hide Linked, Valid, Flat, Find, SentPrefix, Start, Chain, Cut, At;
      ValidParts();
      ghost var f, a, b, m := order, Start(lists, i), Start(lists, i + 1), n;
      FlatUpdate(lists, i, []);
      SkipPiece(piece, i);
      UnlinkPiece(piece, prev, i);
      OrderParts();
      piece.next := null;
      n := Cut(n, a, b);
      Settle(f, a, b, m);
    }

    /** Drops piece `idx`. */
    method Delete(idx: nat) returns (ok: bool)
      requires Valid()
      modifies this, pieces`next
      ensures Valid()
      ensures Within()
      ensures ok <==> Find(old(lists), idx) < |old(lists)|
      ensures !ok ==> unchanged(this)
      ensures ok ==> Lost(old(lists), old(n), Find(old(lists), idx))
    {
      hide Linked, Find, Start;
      OrderParts();
      var piece, prev, i := FindPiece(idx);
      ok := piece != null;
      if ok {
        TakeOut(piece, prev, i);
      }
    }

    /** Resets the slices at the front of a piece that have been sent. */
    method Unsend(piece: Piece, ghost list: seq<Slice>, ghost m: nat)
      requires Chain(piece, list) && Distinct(list) && SentPrefix(list, m)
      modifies list`sent
      ensures SentPrefix(list, 0)
    {
      var slice := piece.slices;
      ghost var k: nat := 0;
      while slice != null && slice.sent
        invariant k <= |list| && slice == At(list, k)
        invariant forall j :: 0 <= j < k ==> !list[j].sent
        invariant forall j :: k <= j < |list| ==> list[j].sent == old(list[j].sent)
        decreases |list| - k
      {
        slice.sent := false;
        slice, k := slice.next, k + 1;
      }
    }

    /** Puts a piece of another queue at the end of this one, with nothing of it sent. */
    method Append(piece: Piece, ghost list: seq<Slice>, ghost m: nat) returns (ok: bool)
      requires Valid() && piece !in pieces && piece.next == null && Chain(piece, list) && list != [] && Distinct(list)
      requires (forall s :: s in list ==> s.index == list[0].index && s !in order) && SentPrefix(list, m)
      modifies this, pieces`next, list`sent
      ensures Valid() && n == old(n)
      ensures ok <==> Find(old(lists), list[0].index) == |old(lists)|
      ensures !ok ==> unchanged(this)
      ensures ok ==> pieces == old(pieces) + [piece] && lists == old(lists) + [list] && order == old(order) + list
    {
      hide Linked, Valid, SentPrefix, Find, Start, Flat;
      ValidParts();
      var found, last, i := FindPiece(piece.slices.index);
      if found != null {
        return false;
      }
      ghost var f := order;
      FlatAppend(lists, list);
      LinkPiece(piece, last, list);
      OrderParts();
      Unsend(piece, list, m);
      assert forall j :: 0 <= j < |f| ==> f[j] !in list;
      AppendSent(f, list, n);
      if send == null {
        send := piece.slices;
      }
      ToValid();
      ok := true;
    }

    /** The part of piece `i` that has been sent is a prefix of it. */
    lemma SentOf(i: nat) returns (m: nat)
      requires Valid() && i < |lists|
      ensures SentPrefix(lists[i], m) && lists[i] != [] && Distinct(lists[i])
      ensures forall s :: s in lists[i] ==> s in order && s.index == lists[i][0].index
    {
      NodesFlat(lists);
      FlatSplit(lists, i);
      m := SentWithin(order, Start(lists, i), Start(lists, i + 1), n);
    }

    /** The two queues hold nothing that neither held before, and this one nothing new. */
    twostate predicate From(dst: RequestQueue)
      reads this`pieces, this`order, dst`pieces, dst`order
    {
      && (forall p :: p in pieces ==> p in old(pieces))
      && (forall p :: p in dst.pieces ==> p in old(pieces) || p in old(dst.pieces))
      && (forall s :: s in order ==> s in old(order))
      && (forall s :: s in dst.order ==> s in old(order) || s in old(dst.order))
    }

    /** Hands piece `i`, which has been taken out of this queue, to `dst`. */
    method Hand(dst: RequestQueue, piece: Piece, prev: Piece?, ghost i: nat, drop: bool) returns (ok: bool)
      requires Valid() && dst.Valid() && Apart(dst)
      requires i < |pieces| && piece == pieces[i] && prev == PieceAt(pieces, i - 1)
      modifies this, dst, pieces`next, dst.pieces`next, order`sent
      ensures Valid() && dst.Valid() && Apart(dst)
      ensures pieces == Without(old(pieces), i) && Lost(old(lists), old(n), i)
      ensures ok <==> !drop && Find(old(dst.lists), old(lists[i][0]).index) == |old(dst.lists)|
      ensures dst.n == old(dst.n)
      ensures !ok ==> unchanged(dst)
      ensures ok ==> dst.pieces == old(dst.pieces) + [piece] && dst.lists == old(dst.lists) + [old(lists[i])]
      ensures ok ==> dst.order == old(dst.order) + old(lists[i])
      ensures From(dst)
    {
      hide Linked, Find, Start, Flat, SentPrefix, Chain;
      ValidParts();
      ghost var list := lists[i];
      ghost var m := SentOf(i);
      FlatSplit(lists, i);
      CutElements(order, Start(lists, i), Start(lists, i + 1));
      WithoutDistinct(pieces, i);
      dst.ValidParts();
      TakeOut(piece, prev, i);
      assert forall j :: 0 <= j < |dst.pieces| ==> dst.pieces[j] !in old(pieces);
      assert forall j :: 0 <= j < |dst.pieces| ==> dst.pieces[j].next == old(dst.pieces[j].next);
      assert dst.Valid();
      ok := false;
      if !drop {
        ok := dst.Append(piece, list, m);
      }
    }

    /** Whether a piece is dropped when it is to go to `dst`: the queue of pending requests wants no untouched piece. */
    ghost predicate Dropped(dst: RequestQueue, list: seq<Slice>)
      requires list != []
    {
      dst.isPending && |list| >= geo.NSlices(list[0].index)
    }

    /** Moves piece `idx` to another queue, or drops it. */
    method Transfer(dst: RequestQueue, idx: nat) returns (ok: bool)
      requires Valid() && dst.Valid() && Apart(dst)
      modifies this, dst, pieces`next, dst.pieces`next, order`sent
      ensures Valid() && dst.Valid() && Apart(dst) && dst.n == old(dst.n)
      ensures Find(old(lists), idx) == |old(lists)| ==> ok && unchanged(this) && unchanged(dst)
      ensures Find(old(lists), idx) < |old(lists)| ==> var i := Find(old(lists), idx);
        && Lost(old(lists), old(n), i)
        && (ok <==> !Dropped(dst, old(lists)[i]) && Find(old(dst.lists), idx) == |old(dst.lists)|)
        && (if ok then dst.lists == old(dst.lists) + [old(lists)[i]] else dst.lists == old(dst.lists))
      ensures From(dst)
    {
      hide Linked, Find, Start, Flat, SentPrefix;
      LinkedParts();
      var piece, prev, i := FindPiece(idx);
      if piece == null {
        return true;
      }
      ok := Hand(dst, piece, prev, i, dst.isPending && piece.count >= geo.NSlices(piece.slices.index));
    }

    /** It is dropped exactly if it still has all its slices. */
    lemma DroppedWhole(dst: RequestQueue, list: seq<Slice>)
      requires dst.isPending && geo.Tidy(list) && list != [] && forall s :: s in list ==> s.index == list[0].index
      ensures Dropped(dst, list) <==> forall k: nat :: k < geo.NSlices(list[0].index) ==> HasCell(geo, list, k)
    {
      hide Geometry.Tidy, Geometry.NSlices;
      TidyCount(geo, list, list[0].index);
    }

    /** What a queue holds after it was given the pieces of `from` one by one. */
    ghost function Given(dst: RequestQueue, held: seq<seq<Slice>>, from: seq<seq<Slice>>): seq<seq<Slice>>
      requires forall j :: 0 <= j < |held| ==> held[j] != []
      requires forall j :: 0 <= j < |from| ==> from[j] != []
      decreases |from|
    {
      if from == [] then held
      else if Dropped(dst, from[0]) || Find(held, from[0][0].index) < |held| then Given(dst, held, from[1..])
      else Given(dst, held + [from[0]], from[1..])
    }

    method HasPiece(idx: nat) returns (has: bool)
      requires Valid()
      ensures has <==> Has(lists, idx)
    {
      hide Find;
      LinkedParts();
      var piece, _, i := FindPiece(idx);
      has := piece != null;
    }

    /** Whether a slice is queued and has been sent. */
    method IsSent(idx: nat, off: nat, len: nat) returns (sent: bool)
      requires Valid()
      ensures sent <==> Holds(lists, idx, off, len) && Slot(lists, idx, off, len) < n
    {
      hide Linked, Flat, Find, FindIn;
      ValidParts();
      LinkedNow();
      var slice, _, k := FindSlice(idx, off, len);
      sent := slice != null && slice.sent;
      if slice != null {
        FlatNext(lists, Find(lists, idx), k);
      }
    }

    lemma WhenEmpty()
      requires Valid()
      ensures head == null <==> lists == []
      ensures lists == [] ==> order == [] && n == 0 && send == null
      ensures forall j :: 0 <= j < |lists| ==> lists[j] != []
    {
    }

    /** Forgets everything. */
    method Empty()
      requires Valid()
      modifies this
      ensures Valid() && lists == [] && n == 0
      ensures Within()
    {
      head, send, pieces, lists, order, n := null, null, [], [], [], 0;
    }

    /** Moves the first piece to another queue, or drops it. */
    method TransferFirst(dst: RequestQueue) returns (ok: bool)
      requires Valid() && dst.Valid() && Apart(dst) && head != null
      modifies this, dst, pieces`next, dst.pieces`next, order`sent
      ensures Valid() && dst.Valid() && Apart(dst) && dst.n == old(dst.n) && From(dst)
      ensures old(lists) != [] && lists == old(lists)[1..]
      ensures |dst.lists| == |old(dst.lists)| + if ok then 1 else 0
      ensures forall j :: 0 <= j < |old(lists)| ==> old(lists)[j] != []
      ensures forall j :: 0 <= j < |old(dst.lists)| ==> old(dst.lists)[j] != []
      ensures forall j :: 0 <= j < |dst.lists| ==> dst.lists[j] != []
      ensures Given(dst, dst.lists, lists) == Given(dst, old(dst.lists), old(lists))
    {
      hide Linked, Valid, Apart, From, Find, Flat, SentPrefix;
      LinkedNow();
      dst.LinkedNow();
      FindIs(lists, 0);
      assert Without(lists, 0) == lists[1..];
      ok := Transfer(dst, head.slices.index);
      dst.WhenEmpty();
    }

    /** Moves everything to another queue. */
    method TransferAll(dst: RequestQueue) returns (ok: bool)
      requires Valid() && dst.Valid() && Apart(dst)
      modifies this, dst, pieces`next, dst.pieces`next, order`sent
      ensures Valid() && dst.Valid() && Apart(dst) && dst.n == old(dst.n) && From(dst)
      ensures lists == [] && n == 0
      ensures dst.lists == Given(dst, old(dst.lists), old(lists))
      ensures ok <==> |dst.lists| == |old(dst.lists)| + |old(lists)|
    {
      hide Linked, Valid, Apart, Find, Flat, SentPrefix;
      WhenEmpty();
      dst.WhenEmpty();
      ok := true;
      ghost var all := Given(dst, dst.lists, lists);
      while head != null
        invariant Valid() && dst.Valid() && Apart(dst) && dst.n == old(dst.n)
        invariant forall j :: 0 <= j < |lists| ==> lists[j] != []
        invariant forall j :: 0 <= j < |dst.lists| ==> dst.lists[j] != []
        invariant all == Given(dst, dst.lists, lists)
        invariant From(dst)
        invariant |dst.lists| + |lists| <= |old(dst.lists)| + |old(lists)|
        invariant ok <==> |dst.lists| + |lists| == |old(dst.lists)| + |old(lists)|
        decreases |lists|
      {
        assert forall j :: 0 <= j < |pieces| ==> pieces[j] in old(pieces);
        assert forall j :: 0 <= j < |order| ==> order[j] in old(order);
        assert forall j :: 0 <= j < |dst.pieces| ==> dst.pieces[j] in old(pieces) || dst.pieces[j] in old(dst.pieces);
        var moved := TransferFirst(dst);
        if !moved {
          ok := false;
        }
        WhenEmpty();
      }
      WhenEmpty();
      send := null;
    }

    /** Finds the first piece that is wanted and that `dst` lacks. */
    method SeekCommon(dst: RequestQueue, wanted: set<nat>) returns (piece: Piece?, prev: Piece?, ghost i: nat)
      requires Valid() && dst.Valid()
      ensures i == FindCommon(lists, wanted, dst.lists)
      ensures piece == PieceAt(pieces, i) && prev == PieceAt(pieces, i - 1)
    {
      hide Linked, Valid, Find, FindCommon, Flat, SentPrefix;
      LinkedNow();
      dst.LinkedNow();
      piece, prev, i := head, null, 0;
      while piece != null
        invariant i <= |pieces| && piece == PieceAt(pieces, i) && prev == PieceAt(pieces, i - 1)
        invariant forall j :: 0 <= j < i ==> !Common(lists[j], wanted, dst.lists)
        decreases |pieces| - i
      {
        assert Chain(pieces[i], lists[i]);
        var present := dst.HasPiece(piece.slices.index);
        if piece.slices.index in wanted && !present {
          break;
        }
        prev, piece, i := piece, piece.next, i + 1;
      }
    }

    /** Moves the first piece that is wanted and that `dst` lacks; the result is its index, or past all indices. */
    method Reassign(dst: RequestQueue, wanted: set<nat>) returns (idx: nat)
      requires Valid() && dst.Valid() && Apart(dst)
      modifies this, dst, pieces`next, dst.pieces`next, order`sent
      ensures Valid() && dst.Valid() && Apart(dst) && dst.n == old(dst.n) && From(dst)
      ensures var i := FindCommon(old(lists), wanted, old(dst.lists));
        if i < |old(lists)| then
          idx == old(lists)[i][0].index && Lost(old(lists), old(n), i) && dst.lists == old(dst.lists) + [old(lists)[i]]
        else
          idx == geo.PieceCount() && unchanged(this) && unchanged(dst)
    {
      hide Linked, Valid, Apart, Find, FindCommon, Flat, SentPrefix, Lost;
      LinkedNow();
      dst.LinkedNow();
      idx := geo.PieceCount();
      var piece, prev, i := SeekCommon(dst, wanted);
      if piece != null {
        assert Chain(pieces[i], lists[i]);
        idx := piece.slices.index;
        var ok := Hand(dst, piece, prev, i, false);
      }
    }

    /** Moves the cursor to what follows slice `k` of piece `i` if it is there. */
    method SkipSlice(piece: Piece, slice: Slice, ghost i: nat, ghost k: nat)
      requires Valid() && i < |pieces| && piece == pieces[i] && k < |lists[i]| && slice == lists[i][k]
      modifies this`send
      ensures Start(lists, i) + k < |order| && order[Start(lists, i) + k] == slice
      ensures send == At(order, if n == Start(lists, i) + k then n + 1 else n)
    {
      hide Linked, Flat, Find, SentPrefix;
      LinkedParts();
      FlatNext(lists, i, k);
      if send == slice {
        assert order[n] == order[Start(lists, i) + k];
        send := slice.next;
        if send == null && piece.next != null {
          send := piece.next.slices;
        }
      }
    }

    /** Unlinks slice `k` of piece `i`, and the piece with its last slice. */
    method Unlink(piece: Piece, prevpiece: Piece?, slice: Slice, prev: Slice?, ghost i: nat, ghost k: nat)
      requires Linked() && i < |pieces| && piece == pieces[i] && prevpiece == PieceAt(pieces, i - 1)
      requires k < |lists[i]| && slice == lists[i][k] && prev == At(lists[i], k - 1)
      modifies this`head, this`pieces, this`lists, this`order
      modifies pieces`next, pieces`count, pieces`slices, order`next
      ensures Linked() && lists == Removed(old(lists), i, k)
      ensures pieces == if |old(lists)[i]| == 1 then Without(old(pieces), i) else old(pieces)
    {
      hide Linked;
      LinkedParts();
      assert Chain(piece, lists[i]);
      if prev == null && slice.next == null {
        UnlinkPiece(piece, prevpiece, i);
      } else {
        UnlinkSlice(piece, slice, prev, i, k);
      }
    }

    /** Takes slice `k` of piece `i` out, and the piece with its last slice. */
    method TakeSlice(piece: Piece, prevpiece: Piece?, slice: Slice, prev: Slice?, ghost i: nat, ghost k: nat)
      requires Valid() && i < |pieces| && piece == pieces[i] && prevpiece == PieceAt(pieces, i - 1)
      requires k < |lists[i]| && slice == lists[i][k] && prev == At(lists[i], k - 1)
      modifies this, pieces`next, pieces`count, pieces`slices, order`next
      ensures Valid() && lists == Removed(old(lists), i, k)
      ensures Within()
      ensures pieces == if |old(lists)[i]| == 1 then Without(old(pieces), i) else old(pieces)
      ensures var p := Start(old(lists), i) + k;
        p < |old(order)| && order == old(order)[..p] + old(order)[p + 1..] && n == Cut(old(n), p, p + 1)
    {
      hide Linked, Valid, Flat, Find, SentPrefix, Start, Removed, Cut, At;
      ValidParts();
      ghost var f, p, m := order, Start(lists, i) + k, n;
      FlatRemoved(lists, i, k);
      SkipSlice(piece, slice, i, k);
      Unlink(piece, prevpiece, slice, prev, i, k);
      OrderParts();
      n := Cut(n, p, p + 1);
      Settle(f, p, p + 1, m);
    }

    /** The cursor is right after a part of the order has been taken out. */
    lemma Settle(f: seq<Slice>, a: nat, b: nat, m: nat)
      requires Linked() && SentPrefix(f, m) && a <= b <= |f| && order == f[..a] + f[b..]
      requires n == Cut(m, a, b) && send == At(f, if a <= m < b then b else m)
      ensures Valid()
    {
      hide Linked;
      CutSent(f, a, b, m);
    }

    /** Drops a slice. */
    method Remove(idx: nat, off: nat, len: nat) returns (ok: bool)
      requires Valid()
      modifies this, pieces`next, pieces`count, pieces`slices, order`next
      ensures Valid()
      ensures Within()
      ensures ok <==> Holds(old(lists), idx, off, len)
      ensures !ok ==> unchanged(this)
      ensures ok ==> lists == Less(old(lists), idx, off, len)
      ensures ok ==> var p := Slot(old(lists), idx, off, len);
        p < |old(order)| && order == old(order)[..p] + old(order)[p + 1..] && n == Cut(old(n), p, p + 1)
    {
      hide Linked, Valid, Flat, Find, FindIn, SentPrefix, Start, Removed;
      ValidParts();
      LinkedNow();
      var piece, prevpiece, i := FindPiece(idx);
      if piece == null {
        return false;
      }
      var slice, prev, k := FindSlice(idx, off, len);
      if slice == null {
        return false;
      }
      TakeSlice(piece, prevpiece, slice, prev, i, k);
      ok := true;
    }

    /** Drops the first slice and tells which it was. */
    method Pop() returns (ok: bool, idx: nat, off: nat, len: nat)
      requires Valid()
      modifies this, pieces`next, pieces`count, pieces`slices, order`next
      ensures Valid() && (ok <==> old(order) != [])
      ensures Within()
      ensures !ok ==> unchanged(this)
      ensures ok ==> order == old(order)[1..] && n == if old(n) > 0 then old(n) - 1 else 0
      ensures ok ==> lists == Removed(old(lists), 0, 0) && old(order)[0].index == idx && Matches(old(order)[0], off, len)
    {
      hide Linked, Valid, Find, FindIn, SentPrefix;
      LinkedNow();
      WhenEmpty();
      ValidParts();
      var piece := head;
      if piece == null {
        return false, 0, 0, 0;
      }
      var slice := piece.slices;
      FlatNext(lists, 0, 0);
      ok, idx, off, len := true, slice.index, slice.offset, slice.length;
      TakeSlice(piece, null, slice, null, 0, 0);
    }

    /** As Valid, but a slice before the cursor, at place `p`, has still to be sent. */
    ghost predicate Owing(p: nat)
      reads this, pieces`count, pieces`slices, pieces`next, order`next, order`sent
    {
      Linked() && SentBut(order, n, p) && send == At(order, n)
    }

    lemma ToOwing(p: nat)
      requires Linked() && SentBut(order, n, p) && send == At(order, n)
      ensures Owing(p)
    {
    }

    lemma OwingParts(p: nat)
      requires Owing(p)
      ensures Linked() && Shape(lists)
    {
    }

    /** Adds a slice at the end of its piece and leaves the cursor; the result is 1 if slices behind it have been sent. */
    method Requeue(idx: nat, off: nat, len: nat) returns (result: int, ghost s: Slice)
      requires Valid()
      modifies this`head, this`send, this`pieces, this`lists, this`order, this`n
      modifies pieces`next, pieces`count, order`next
      ensures Grown()
      ensures fresh(s) && s.index == idx && Matches(s, off, len) && !s.sent
      ensures lists == Added(old(lists), s)
      ensures forall j :: 0 <= j < |pieces| ==> pieces[j] in old(pieces) || fresh(pieces[j])
      ensures order == old(order)[..Place(old(lists), idx)] + [s] + old(order)[Place(old(lists), idx)..]
      ensures result == if old(n) >= Place(old(lists), idx) then 1 else 0
      ensures result == 0 ==> Valid() && n == old(n)
      ensures result == 1 ==> Owing(Place(old(lists), idx)) && n == old(n) + 1
    {
      hide Linked, Valid, Owing, Flat, Find, SentPrefix, SentBut, Added, Place, At;
      ValidParts();
      ghost var f, q := order, Place(lists, idx);
      var before := SendsBefore(idx);
      var saved := send;
      s := Add(idx, off, len);
      GrowSent(f, q, s, n);
      PutIn(f, q, s);
      send := saved;
      result := if before then 1 else 0;
      if before {
        n := n + 1;
        ToOwing(q);
      } else {
        ToValid();
      }
    }

    lemma PutIn(f: seq<Slice>, q: nat, s: Slice)
      requires q <= |f|
      ensures var g := f[..q] + [s] + f[q..]; forall j :: 0 <= j < |g| ==> g[j] in f || g[j] == s
    {
    }

    /** Whether the cursor is past everything that belongs to piece `idx`, or would if it were queued. */
    method SendsBefore(idx: nat) returns (result: bool)
      requires Valid()
      ensures result <==> n >= Place(lists, idx)
    {
      hide Linked, Flat, Find, SentPrefix;
      ValidParts();
      LinkedNow();
      result := true;
      var piece := head;
      ghost var i: nat := 0;
      ghost var j, k := |lists|, 0;
      if n < |order| {
        j, k := Locate(lists, n);
        FindIs(lists, j);
        if Find(lists, idx) < |lists| {
          SlicePlace(lists, j, k, Find(lists, idx));
        }
      }
      while piece != null
        invariant i <= |pieces| && piece == PieceAt(pieces, i)
        invariant i <= Find(lists, idx)
        invariant result <==> j >= i
        decreases |pieces| - i
      {
        assert Chain(pieces[i], lists[i]);
        if send != null && send.index == piece.slices.index {
          result := false;
        }
        if piece.slices.index == idx {
          break;
        }
        piece, i := piece.next, i + 1;
      }
    }

    /** Marks a requeued slice as sent, which makes the cursor right again. */
    method SentSlice(timestamp: nat, idx: nat, off: nat, len: nat)
      requires Linked() && Holds(lists, idx, off, len) && Owing(Slot(lists, idx, off, len))
      modifies this`send, order`sent, order`reqtime
      ensures Valid()
    {
      hide Linked, Flat, Find, FindIn;
      LinkedParts();
      var slice, prev, k := FindSlice(idx, off, len);
      ghost var i, f, p := Find(lists, idx), order, Slot(lists, idx, off, len);
      FlatNext(lists, i, k);
      assert forall j :: 0 <= j < |f| && j != p ==> f[j] != f[p];
      MarkSent(timestamp, slice, i, k);
      assert forall j :: 0 <= j < |f| && j != p ==> f[j].sent == old(f[j].sent);
    }

    /** Counts all slices. */
    method Qsize() returns (total: nat)
      requires Valid()
      ensures total == |order|
    {
      hide Linked, SentPrefix;
      ValidParts();
      LinkedNow();
      StartMonotone(lists, 0, |lists|);
      total := 0;
      var piece := head;
      ghost var i: nat := 0;
      while piece != null
        invariant i <= |pieces| && piece == PieceAt(pieces, i) && total == Start(lists, i)
        decreases |pieces| - i
      {
        FlatSplit(lists, i);
        assert Chain(pieces[i], lists[i]);
        total := total + piece.count;
        piece, i := piece.next, i + 1;
      }
    }

    /** Adds one more slice to a new piece. */
    method AddNext(idx: nat, off: nat, len: nat, ghost base: seq<seq<Slice>>, ghost list: seq<Slice>)
      returns (ghost s: Slice)
      requires Valid() && lists == WithLast(base, list) && (list != [] ==> list[0].index == idx)
      requires !Has(base, idx)
      modifies this`head, this`send, this`pieces, this`lists, this`order
      modifies pieces`next, pieces`count, order`next
      ensures Valid() && fresh(s) && s.index == idx && Matches(s, off, len) && !s.sent
      ensures lists == WithLast(base, list + [s]) && order == old(order) + [s]
      ensures forall j :: 0 <= j < |pieces| ==> pieces[j] in old(pieces) || fresh(pieces[j])
    {
      hide Linked, Flat, Find, SentPrefix, WithLast, Added;
      ValidParts();
      LinkedNow();
      s := Add(idx, off, len);
      AddedLast(base, list, s);
    }

    /** Queues all of a piece that is not queued yet, slice by slice. */
    method AddPiece(idx: nat) returns (ghost list: seq<Slice>)
      requires Valid() && !Has(lists, idx) && idx < geo.PieceCount()
      modifies this`head, this`send, this`pieces, this`lists, this`order
      modifies pieces`next, pieces`count, order`next
      ensures Valid() && lists == old(lists) + [list] && order == old(order) + list
      ensures Grown()
      ensures geo.Tiles(idx, list)
      ensures forall j :: 0 <= j < |list| ==> fresh(list[j]) && !list[j].sent
      ensures forall j :: 0 <= j < |pieces| ==> pieces[j] in old(pieces) || fresh(pieces[j])
    {
      hide Linked, Valid, Flat, Find, SentPrefix, PieceLen, NPieces, Geometry.TilesTo, Geometry.Tiles, WithLast;
      AddedNone(lists);
      ValidParts();
      LinkedNow();
      PieceEnd(geo.total, geo.pieceLength, idx);
      var off, remain := 0, geo.Length(idx);
      list := [];
      TilesNone(geo, idx);
      while remain > 0
        invariant Valid() && lists == WithLast(old(lists), list) && order == old(order) + list
        invariant remain >= 0 && off + remain == geo.Length(idx) && geo.TilesTo(idx, list, off)
        invariant list != [] ==> list[0].index == idx
        invariant forall j :: 0 <= j < |list| ==> fresh(list[j]) && !list[j].sent
        invariant forall j :: 0 <= j < |pieces| ==> pieces[j] in old(pieces) || fresh(pieces[j])
        decreases remain
      {
        var len := if remain < geo.sliceSize then remain else geo.sliceSize;
        ghost var s := AddNext(idx, off, len, old(lists), list);
        TilesNext(geo, idx, list, off, s);
        list := list + [s];
        off, remain := off + len, remain - len;
      }
      TilesWhole(geo, idx, list);
      AddedSome(old(lists), list);
    }

    /** Queues slices like those of the list `source` of another queue. */
    method AddLike(first: Slice, idx: nat, ghost source: seq<Slice>) returns (ghost list: seq<Slice>)
      requires Valid() && !Has(lists, idx)
      requires source != [] && first == source[0]
      requires forall k {:trigger source[k].next} :: 0 <= k < |source| ==> source[k].next == At(source, k + 1)
      requires forall k :: 0 <= k < |source| ==> source[k].index == idx && source[k] !in order
      modifies this`head, this`send, this`pieces, this`lists, this`order
      modifies pieces`next, pieces`count, order`next
      ensures Valid() && lists == old(lists) + [list] && order == old(order) + list && SameSlices(list, source)
      ensures Grown()
      ensures forall j :: 0 <= j < |list| ==> fresh(list[j])
      ensures forall j :: 0 <= j < |pieces| ==> pieces[j] in old(pieces) || fresh(pieces[j])
    {
      hide Linked, Valid, Flat, Find, SentPrefix, SameSlices, WithLast;
      SameNone(source);
      AddedNone(lists);
      list := [];
      var slice: Slice? := first;
      while slice != null
        invariant Valid() && lists == WithLast(old(lists), list) && order == old(order) + list
        invariant |list| <= |source| && slice == At(source, |list|) && SameSlices(list, source[..|list|])
        invariant list != [] ==> list[0].index == idx
        invariant forall k {:trigger source[k].next} :: 0 <= k < |source| ==> source[k].next == At(source, k + 1)
        invariant forall j :: 0 <= j < |list| ==> fresh(list[j])
        invariant forall j :: 0 <= j < |pieces| ==> pieces[j] in old(pieces) || fresh(pieces[j])
        decreases |source| - |list|
      {
        ghost var s := AddNext(idx, slice.offset, slice.length, old(lists), list);
        SameNext(source, list, s);
        list := list + [s];
        slice := slice.next;
      }
      SameAll(source, list);
      assert list != [];
      AddedSome(old(lists), list);
    }

    /** Queues in `dst` the slices of piece `idx` that this queue has, unless it has the piece already. */
    method Copy(dst: RequestQueue, idx: nat) returns (result: int, ghost list: seq<Slice>)
      requires Valid() && dst.Valid() && Apart(dst)
      modifies dst`head, dst`send, dst`pieces, dst`lists, dst`order
      modifies dst.pieces`next, dst.pieces`count, dst.order`next
      ensures dst.Grown()
      ensures Valid() && dst.Valid() && Apart(dst)
      ensures result == if Has(lists, idx) && !Has(old(dst.lists), idx) then 1 else 0
      ensures result == 0 ==> unchanged(dst)
      ensures result == 1 ==> dst.lists == old(dst.lists) + [list] && dst.order == old(dst.order) + list
      ensures result == 1 ==> SameSlices(list, lists[Find(lists, idx)])
      ensures forall j :: 0 <= j < |list| ==> fresh(list[j])
      ensures forall j :: 0 <= j < |dst.pieces| ==> dst.pieces[j] in old(dst.pieces) || fresh(dst.pieces[j])
    {
      hide Linked, Flat, Find, SentPrefix, Shape, PieceList, SameSlices;
      LinkedParts();
      dst.WhenEmpty();
      result, list := 0, [];
      var present := dst.HasPiece(idx);
      if present {
        return;
      }
      var piece, _, i := FindPiece(idx);
      if piece == null {
        return;
      }
      assert Chain(piece, lists[i]);
      assert forall j :: 0 <= j < |pieces| ==> pieces[j] !in dst.pieces;
      assert forall j :: 0 <= j < |order| ==> order[j] !in dst.order;
      list := dst.AddLike(piece.slices, idx, lists[i]);
      result := 1;
    }

    /** Accounts for another order of the slices of piece `i`. */
    ghost method Relist(i: nat, list: seq<Slice>)
      requires order == Flat(lists) && Distinct(pieces) && Shape(lists) && PieceList(pieces, head)
      requires |pieces| == |lists| && forall j :: 0 <= j < |pieces| && j != i ==> Chain(pieces[j], lists[j])
      requires i < |lists| && Chain(pieces[i], list) && SameElements(list, lists[i]) && Distinct(list)
      modifies this`lists, this`order
      ensures Linked() && lists == old(lists)[i := list]
      ensures Within()
    {
      FlatElements(lists, i, list);
      ShapeUpdate(lists, i, list);
      lists := lists[i := list];
      order := Flat(lists);
      Assemble();
    }

    /** Shuffles the slices of piece `i`, of which there are several. */
    method ShufflePiece(piece: Piece, len: nat, ghost i: nat) returns (ghost list: seq<Slice>)
      requires Linked() && i < |lists| && piece == pieces[i] && len == |lists[i]| > 1
      modifies this`lists, this`order, piece`slices, order`next
      ensures Linked() && lists == old(lists)[i := list] && Permutation(old(lists)[i], list)
      ensures Within()
      ensures list != [] && piece.slices == list[0] && list[0].index == old(lists)[i][0].index
      ensures OffsetsDiffer(old(lists)[i]) ==> list[0].offset != old(lists)[i][0].offset
    {
      hide Linked, Shape, PieceList, Flat, Permutation, OffsetsDiffer;
      LinkedParts();
      ghost var before := lists[i];
      assert forall k :: 0 <= k < |before| ==> before[k] in order;
      forall j, k | 0 <= j < |lists| && j != i && 0 <= k < |before| ensures before[k] !in lists[j] {
        ShapeApart(lists, i, before[k]);
      }
      assert Chain(piece, before);
      var firstoff := piece.slices.offset;
      var start := new Slice(0, 0, 0);
      start.next := piece.slices;
      assert Hung(start, before);
      list := Shuffled(start, len, firstoff, before);
      PermutationFacts(before, list);
      piece.slices := start.next;
      Relist(i, list);
    }

    /** Shuffles piece `i`, of which nothing has been sent. */
    method ShuffleUnsent(piece: Piece, len: nat, ghost i: nat) returns (ghost list: seq<Slice>)
      requires Valid() && i < |lists| && piece == pieces[i] && len == |lists[i]| > 1 && n <= Start(lists, i)
      modifies this`send, this`lists, this`order, piece`slices, order`next
      ensures Valid() && Within() && lists == old(lists)[i := list] && Permutation(old(lists)[i], list)
      ensures OffsetsDiffer(old(lists)[i]) ==> list[0].offset != old(lists)[i][0].offset
    {
      hide Linked, Valid, Flat, Find, SentPrefix, Permutation, OffsetsDiffer, Start, PieceList, Chain;
      ValidParts();
      LinkedNow();
      FlatSplit(lists, i);
      Unsent(i);
      IndexPlace(lists, n, i);
      ghost var before, list0 := lists, lists[i];
      assert forall j :: 0 <= j < |list0| ==> list0[j] in lists[i];
      list := ShufflePiece(piece, len, i);
      PermutationFacts(list0, list);
      assert forall j :: 0 <= j < |list0| ==> !list0[j].sent;
      assert forall j :: 0 <= j < |list| ==> list[j] in list0;
      Relisted(before, i, list, n);
      OrderParts();
      if send.index == piece.slices.index {
        send := piece.slices;
      }
      ToValid();
    }

    /** Shuffles the slices of a piece of which nothing has been sent. */
    method Shuffle(idx: nat) returns (ghost list: seq<Slice>)
      requires Valid()
      requires Has(lists, idx) ==> n <= Start(lists, Find(lists, idx))
      modifies this`send, this`lists, this`order, pieces`slices, order`next
      ensures Valid()
      ensures Within()
      ensures !Has(old(lists), idx) ==> unchanged(this)
      ensures Has(old(lists), idx) ==> var i := Find(old(lists), idx);
        && lists == old(lists)[i := list] && Permutation(old(lists)[i], list)
        && (|list| > 1 && OffsetsDiffer(old(lists)[i]) ==> list[0].offset != old(lists)[i][0].offset)
    {
      hide Linked, Valid, Flat, Find, SentPrefix, Permutation, OffsetsDiffer, Start;
      ValidParts();
      LinkedNow();
      list := [];
      var piece, _, i := FindPiece(idx);
      if piece == null {
        return;
      }
      assert Chain(piece, lists[i]);
      list := lists[i];
      var len := piece.count;
      if len == 1 {
        PermutationSame(list);
        return;
      }
      list := ShuffleUnsent(piece, len, i);
    }

    lemma Unsent(i: nat)
      requires Valid() && i < |lists| && n <= Start(lists, i)
      ensures forall s :: s in lists[i] ==> !s.sent
      ensures n < |order|
    {
      FlatSplit(lists, i);
      var a, b := Start(lists, i), Start(lists, i + 1);
      assert lists[i] != [];
      assert forall k :: 0 <= k < |lists[i]| ==> order[a..b][k] == order[a + k] && !order[a + k].sent;
    }

    /** Moves slice `k` of piece `i` behind the others. */
    method MoveSlice(piece: Piece, slice: Slice, prev: Slice?, ghost i: nat, ghost k: nat)
      requires Linked() && i < |lists| && piece == pieces[i] && k < |lists[i]| - 1
      requires slice == lists[i][k] && prev == At(lists[i], k - 1)
      modifies this`lists, this`order, piece`slices, order`next
      ensures Linked() && lists == old(lists)[i := Without(old(lists)[i], k) + [slice]]
      ensures Within()
    {
      hide Linked, Shape, PieceList, Flat;
      LinkedParts();
      ghost var before := lists[i];
      forall j, m | 0 <= j < |lists| && j != i && 0 <= m < |before| ensures before[m] !in lists[j] {
        ShapeApart(lists, i, before[m]);
      }
      assert Chain(piece, before);
      if prev != null {
        prev.next := slice.next;
      } else {
        piece.slices := slice.next;
      }
      var point := slice.next;
      ghost var m := k + 1;
      while point.next != null
        invariant k < m < |before| && point == before[m]
        decreases |before| - m
        modifies {}
      {
        point, m := point.next, m + 1;
      }
      point.next := slice;
      slice.next := null;
      WithoutDistinct(before, k);
      ghost var list := Without(before, k) + [slice];
      assert Chain(piece, list);
      Relist(i, list);
    }

    method Unmark(slice: Slice)
      requires Valid() && !slice.sent
      modifies slice`sent
      ensures Valid()
    {
      hide Linked;
      slice.sent := false;
    }

    /** Moves slice `k` of piece `i`, which has not been sent, behind the others. */
    method MoveBack(piece: Piece, slice: Slice, prev: Slice?, ghost i: nat, ghost k: nat)
      requires Valid() && i < |lists| && piece == pieces[i] && k < |lists[i]| - 1
      requires slice == lists[i][k] && prev == At(lists[i], k - 1) && n <= Start(lists, i) + k
      modifies this`send, this`lists, this`order, piece`slices, order`next, order`sent
      ensures Valid() && lists == old(lists)[i := Without(old(lists)[i], k) + [slice]]
      ensures Within()
    {
      hide Linked, Valid, Flat, SentPrefix, Start;
      ValidParts();
      ghost var f, before := order, lists;
      MovedLast(before, i, k, n);
      assert n < |f| && f[n] == slice ==> n == Start(lists, i) + k;
      if send == slice {
        LinkedNow();
        assert Chain(piece, lists[i]);
        send := slice.next;
      }
      MoveSlice(piece, slice, prev, i, k);
      OrderParts();
      MovedLast(before, i, k, n);
      ToValid();
      Unmark(slice);
    }

    /** Moves a slice that has not been sent to the end of its piece. */
    method MoveLast(idx: nat, off: nat, len: nat)
      requires Valid()
      requires Holds(lists, idx, off, len) ==> n <= Slot(lists, idx, off, len)
      modifies this`send, this`lists, this`order, pieces`slices, order`next, order`sent
      ensures Valid()
      ensures Within()
      ensures !Holds(old(lists), idx, off, len) ==> unchanged(this)
      ensures Holds(old(lists), idx, off, len) ==>
        var i := Find(old(lists), idx);
        var k := FindIn(old(lists)[i], off, len);
        lists == old(lists)[i := Without(old(lists)[i], k) + [old(lists)[i][k]]]
    {
      hide Linked, Valid, Flat, Find, FindIn, SentPrefix;
      ValidParts();
      LinkedNow();
      var piece, _, i := FindPiece(idx);
      if piece == null {
        return;
      }
      var slice, point, k := FindSlice(idx, off, len);
      if slice == null {
        return;
      }
      assert slice.next == At(lists[i], k + 1);
      if slice.next == null {
        assert Without(lists[i], k) + [slice] == lists[i];
        assert lists[i := lists[i]] == lists;
        return;
      }
      MoveBack(piece, slice, point, i, k);
    }
  }
}
