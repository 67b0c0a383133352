/** How pieces are cut into slices, and what that says about the slices a queue can hold. */
module SliceGrid {
  import opened Sequences
  import opened Sets
  import opened Pieces
  import opened QueueSlices

  /** The division of the torrent into pieces and slices, which every queue shares. */
  datatype Geometry = Geometry(total: nat, pieceLength: pos, sliceSize: pos) {
    function PieceCount(): nat {
      NPieces(total, pieceLength)
    }

    function Length(idx: nat): nat {
      PieceLen(total, pieceLength, PieceCount(), idx)
    }

    function NSlices(idx: nat): nat {
      var n := Length(idx) / sliceSize;
      if Length(idx) % sliceSize != 0 then n + 1 else n
    }

    /** Slice `s` is the `k`-th of its piece: full length, unless it is cut off by the end of the piece. */
    ghost predicate Cell(s: Slice, k: nat) {
      && s.index < PieceCount()
      && s.offset == k * sliceSize < Length(s.index)
      && s.length == if sliceSize <= Length(s.index) - s.offset then sliceSize else Length(s.index) - s.offset
    }

    /** `list` is all of piece `idx`, slice by slice. */
    ghost predicate Tiles(idx: nat, list: seq<Slice>) {
      |list| == NSlices(idx) && forall k :: 0 <= k < |list| ==> list[k].index == idx && Cell(list[k], k)
    }

    /** `list` is piece `idx` from its start up to `off`. */
    ghost predicate TilesTo(idx: nat, list: seq<Slice>, off: nat) {
      && off <= Length(idx) && (forall k :: 0 <= k < |list| ==> list[k].index == idx && Cell(list[k], k))
      && (if off < Length(idx) then off == |list| * sliceSize
          else list != [] && (|list| - 1) * sliceSize < off <= |list| * sliceSize)
    }

    /** The slices of one piece, each at most once and in any order. */
    ghost predicate Tidy(list: seq<Slice>) {
      && (forall s :: s in list ==> exists k: nat :: Cell(s, k))
      && OffsetsDiffer(list)
    }
  }

  lemma NSlicesIs(geo: Geometry, idx: nat, q: nat)
    requires q > 0 && (q - 1) * geo.sliceSize < geo.Length(idx) <= q * geo.sliceSize
    ensures geo.NSlices(idx) == q
  {
    hide PieceLen, NPieces;
    var len, d := geo.Length(idx), geo.sliceSize;
    if len == q * d {
      DivExact(q, 0, d);
    } else {
      DivExact(q - 1, len - (q - 1) * d, d);
    }
  }

  lemma TilesNone(geo: Geometry, idx: nat)
    requires idx < geo.PieceCount()
    ensures geo.TilesTo(idx, [], 0)
  {
    PieceEnd(geo.total, geo.pieceLength, idx);
  }

  lemma TilesNext(geo: Geometry, idx: nat, list: seq<Slice>, off: nat, s: Slice)
    requires idx < geo.PieceCount() && geo.TilesTo(idx, list, off) && off < geo.Length(idx)
    requires s.index == idx && s.offset == off
    requires s.length == if geo.Length(idx) - off < geo.sliceSize then geo.Length(idx) - off else geo.sliceSize
    ensures geo.TilesTo(idx, list + [s], off + s.length)
  {
    hide PieceLen, NPieces;
  }

  lemma TilesWhole(geo: Geometry, idx: nat, list: seq<Slice>)
    requires geo.TilesTo(idx, list, geo.Length(idx))
    ensures geo.Tiles(idx, list) && list != []
  {
    hide PieceLen, NPieces;
    NSlicesIs(geo, idx, |list|);
  }

  /** The slices end where the piece ends. */
  lemma NSlicesBound(geo: Geometry, idx: nat)
    requires idx < geo.PieceCount()
    ensures geo.NSlices(idx) > 0
    ensures (geo.NSlices(idx) - 1) * geo.sliceSize < geo.Length(idx) <= geo.NSlices(idx) * geo.sliceSize
  {
    hide PieceLen, NPieces;
    PieceEnd(geo.total, geo.pieceLength, idx);
    DivRange(geo.Length(idx), geo.Length(idx) / geo.sliceSize, geo.sliceSize);
  }

  lemma CellHolds(geo: Geometry, s: Slice, k: nat, x: nat)
    requires geo.Cell(s, k) && x < geo.Length(s.index)
    ensures s.offset <= x < s.offset + s.length <==> k == x / geo.sliceSize
  {
    hide PieceLen, NPieces;
    var d := geo.sliceSize;
    var q := x / d;
    DivRange(x, q, d);
    if k < q {
      MulMonotone(d, k + 1, q);
    } else if k > q {
      MulMonotone(d, q + 1, k);
    }
  }

  /** Every byte of the piece is in exactly one of the slices that make it up. */
  lemma TilesOnce(geo: Geometry, idx: nat, list: seq<Slice>, x: nat)
    requires idx < geo.PieceCount() && geo.Tiles(idx, list) && x < geo.Length(idx)
    ensures x / geo.sliceSize < |list|
    ensures forall k :: 0 <= k < |list| ==>
      (list[k].offset <= x < list[k].offset + list[k].length <==> k == x / geo.sliceSize)
  {
    NSlicesBound(geo, idx);
    hide PieceLen, NPieces;
    DivRange(x, x / geo.sliceSize, geo.sliceSize);
    MulCancel(geo.sliceSize, x / geo.sliceSize, |list|);
    forall k | 0 <= k < |list|
      ensures list[k].offset <= x < list[k].offset + list[k].length <==> k == x / geo.sliceSize
    {
      CellHolds(geo, list[k], k, x);
    }
  }

  lemma CellUnique(geo: Geometry, s: Slice, c: nat, k: nat)
    requires geo.Cell(s, c) && geo.Cell(s, k)
    ensures c == k
  {
    hide PieceLen, NPieces;
    if c < k {
      MulMonotone(geo.sliceSize, c + 1, k);
    } else if k < c {
      MulMonotone(geo.sliceSize, k + 1, c);
    }
  }

  /** No piece has more than all of its slices, and one that has as many has them all. */
  lemma TidyCount(geo: Geometry, list: seq<Slice>, idx: nat)
    requires geo.Tidy(list) && list != [] && forall s :: s in list ==> s.index == idx
    ensures |list| <= geo.NSlices(idx)
    ensures |list| == geo.NSlices(idx) <==> forall k: nat :: k < geo.NSlices(idx) ==> HasCell(geo, list, k)
  {
    hide PieceLen, NPieces;
    assert list[0] in list;
    var n := geo.NSlices(idx);
    NSlicesBound(geo, idx);
    var all := Below(n);
    var cells := CellsOf(geo, list);
    forall c | c in cells ensures c in all {
      var s :| s in list && geo.Cell(s, c);
      MulCancel(geo.sliceSize, c, n);
    }
    Subset(cells, all);
    if |list| == n {
      Fills(cells, all);
    }
    if forall k: nat :: k < n ==> HasCell(geo, list, k) {
      Subset(all, cells);
    }
  }

  ghost predicate HasCell(geo: Geometry, list: seq<Slice>, k: nat) {
    exists s :: s in list && geo.Cell(s, k)
  }

  /** Slices of the right sizes, at most one of each. */
  ghost predicate Neat(geo: Geometry, lists: seq<seq<Slice>>) {
    forall i :: 0 <= i < |lists| ==> geo.Tidy(lists[i])
  }

  lemma TidyWithout(geo: Geometry, list: seq<Slice>, k: nat)
    requires geo.Tidy(list) && k < |list|
    ensures geo.Tidy(Without(list, k))
  {
    var rest := Without(list, k);
    forall s | s in rest ensures s in list {
      var i :| 0 <= i < |rest| && rest[i] == s;
      assert s == list[if i < k then i else i + 1];
    }
  }

  lemma NeatWithout(geo: Geometry, lists: seq<seq<Slice>>, i: nat)
    requires Neat(geo, lists) && i < |lists|
    ensures Neat(geo, Without(lists, i))
  {
  }

  lemma NeatRemoved(geo: Geometry, lists: seq<seq<Slice>>, i: nat, k: nat)
    requires Neat(geo, lists) && i < |lists| && k < |lists[i]|
    ensures Neat(geo, Removed(lists, i, k))
  {
    TidyWithout(geo, lists[i], k);
  }

  /** Every piece lacks a slice. */
  ghost predicate Begun(geo: Geometry, lists: seq<seq<Slice>>) {
    forall i :: 0 <= i < |lists| ==> lists[i] != [] && |lists[i]| < geo.NSlices(lists[i][0].index)
  }

  lemma BegunRemoved(geo: Geometry, lists: seq<seq<Slice>>, i: nat, k: nat)
    requires Begun(geo, lists) && i < |lists| && k < |lists[i]|
    requires forall s :: s in lists[i] ==> s.index == lists[i][0].index
    ensures Begun(geo, Removed(lists, i, k)) && Begun(geo, Without(lists, i))
  {
    hide Geometry.NSlices;
    assert |lists[i]| > 1 ==> Without(lists[i], k)[0] == lists[i][if k == 0 then 1 else 0];
  }

  lemma NeatNone(geo: Geometry)
    ensures Neat(geo, [])
  {
  }

  lemma NeatAppend(geo: Geometry, lists: seq<seq<Slice>>, list: seq<Slice>)
    requires Neat(geo, lists) && geo.Tidy(list)
    ensures Neat(geo, lists + [list])
  {
  }

  /** A slice like one that is on the grid may be added if its piece holds none at its offset. */
  lemma NeatAdded(geo: Geometry, lists: seq<seq<Slice>>, s: Slice, like: Slice, k: nat)
    requires Shape(lists) && Neat(geo, lists)
    requires geo.Cell(like, k) && like.index == s.index && Matches(s, like.offset, like.length)
    requires forall i, t :: 0 <= i < |lists| && t in lists[i] && t.index == s.index ==> t.offset != s.offset
    ensures Neat(geo, Added(lists, s))
  {
    hide PieceLen, NPieces;
    assert geo.Cell(s, k);
    var i := Find(lists, s.index);
    if i < |lists| {
      FindIs(lists, i);
      var list := lists[i];
      var after := list + [s];
      forall t | t in after ensures exists c: nat :: geo.Cell(t, c) {
        assert t in list || t == s;
      }
      forall j | 0 <= j < |list| ensures list[j].offset != s.offset {
        assert list[j] in list;
      }
      assert geo.Tidy(after);
    } else {
      assert geo.Tidy([s]);
    }
  }

  lemma CellOrder(geo: Geometry, s: Slice, i: nat, t: Slice, j: nat)
    requires geo.Cell(s, i) && geo.Cell(t, j) && i < j
    ensures s.offset < t.offset
  {
    hide PieceLen, NPieces;
    MulMonotone(geo.sliceSize, i + 1, j);
  }

  lemma TilesTidy(geo: Geometry, idx: nat, list: seq<Slice>)
    requires geo.Tiles(idx, list)
    ensures geo.Tidy(list)
  {
    hide Geometry.Cell, Geometry.NSlices;
    forall i, j | 0 <= i < j < |list| ensures list[i].offset != list[j].offset {
      CellOrder(geo, list[i], i, list[j], j);
    }
  }

  /** Being tidy does not depend on the order. */
  lemma TidyOrder(geo: Geometry, a: seq<Slice>, b: seq<Slice>)
    requires geo.Tidy(a) && SameElements(a, b) && Distinct(b)
    ensures geo.Tidy(b)
  {
    forall i, j | 0 <= i < j < |b| ensures b[i].offset != b[j].offset {
      assert b[i] in a && b[j] in a;
      var k, l :| 0 <= k < |a| && 0 <= l < |a| && a[k] == b[i] && a[l] == b[j];
      assert if k < l then a[k].offset != a[l].offset else a[l].offset != a[k].offset;
    }
  }

  lemma SameTidy(geo: Geometry, a: seq<Slice>, b: seq<Slice>)
    requires geo.Tidy(b) && SameSlices(a, b)
    ensures geo.Tidy(a)
  {
    hide PieceLen, NPieces;
    forall s | s in a ensures exists k: nat :: geo.Cell(s, k) {
      var i :| 0 <= i < |a| && a[i] == s;
      assert b[i] in b;
      var k: nat :| geo.Cell(b[i], k);
      assert geo.Cell(s, k);
    }
  }

  /** No piece is longer than the first one. */
  lemma NSlicesMost(geo: Geometry, idx: nat)
    requires idx < geo.PieceCount()
    ensures geo.NSlices(idx) <= geo.pieceLength / geo.sliceSize + if geo.pieceLength % geo.sliceSize == 0 then 0 else 1
  {
    NSlicesBound(geo, idx);
    PieceEnd(geo.total, geo.pieceLength, idx);
    hide *;
    PartsMost(geo.NSlices(idx), geo.sliceSize, geo.pieceLength);
  }

  lemma NeatUpdate(geo: Geometry, lists: seq<seq<Slice>>, i: nat, list: seq<Slice>)
    requires Neat(geo, lists) && i < |lists| && geo.Tidy(list)
    ensures Neat(geo, lists[i := list])
  {
  }

  /** The numbers of the slices of `list`, of which there are as many as slices. */
  lemma {:induction false} CellsOf(geo: Geometry, list: seq<Slice>) returns (cells: set<nat>)
    requires geo.Tidy(list)
    ensures |cells| == |list|
    ensures forall c: nat :: c in cells <==> HasCell(geo, list, c)
  {
    if list == [] {
      cells := {};
    } else {
      hide Geometry.Cell;
      var last, rest := list[|list| - 1], list[..|list| - 1];
      assert last in list && list == rest + [last];
      assert forall s :: s in list <==> s in rest || s == last;
      var before := CellsOf(geo, rest);
      var k: nat :| geo.Cell(last, k);
      CellFresh(geo, rest, last, k);
      cells := before + {k};
      forall c: nat ensures c in cells <==> HasCell(geo, list, c) {
        if geo.Cell(last, c) {
          CellUnique(geo, last, c, k);
        }
      }
    }
  }

  lemma CellFresh(geo: Geometry, list: seq<Slice>, s: Slice, k: nat)
    requires geo.Tidy(list + [s]) && geo.Cell(s, k)
    ensures !HasCell(geo, list, k)
  {
    hide PieceLen, NPieces;
    forall t | t in list ensures !geo.Cell(t, k) {
      var i :| 0 <= i < |list| && list[i] == t;
      assert (list + [s])[i].offset != (list + [s])[|list|].offset;
    }
  }
}
