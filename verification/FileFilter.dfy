/** Which pieces a file does not need (SetFilter in btfiles.cpp). */
module FileFilter {
  import opened Pieces
  import opened Sets
  import opened Bits
  import opened Bitfields

  /** Where a file is in the torrent. */
  datatype Span = Span(off: nat, len: nat)

  /** A piece has a byte of the file. */
  ghost predicate Touches(f: Span, pieceLength: pos, idx: nat) {
    exists i :: f.off <= i < f.off + f.len && PieceOf(i, pieceLength) == idx
  }

  /** The pieces of a file are those from that of its first byte to that of its last. */
  lemma TouchesRange(f: Span, pieceLength: pos, idx: nat)
    requires f.len > 0
    ensures Touches(f, pieceLength, idx) <==>
      PieceOf(f.off, pieceLength) <= idx <= PieceOf(f.off + f.len - 1, pieceLength)
  {
    hide PieceOf;
    var last := f.off + f.len - 1;
    forall i | f.off <= i <= last ensures PieceOf(f.off, pieceLength) <= PieceOf(i, pieceLength) <= PieceOf(last, pieceLength) {
      PieceOrder(f.off, i, pieceLength);
      PieceOrder(i, last, pieceLength);
    }
    if PieceOf(f.off, pieceLength) == idx {
    } else if PieceOf(f.off, pieceLength) < idx <= PieceOf(last, pieceLength) {
      var i := StartBetween(f.off, last, pieceLength, idx);
    }
  }

  lemma PieceOrder(a: nat, b: nat, pieceLength: pos)
    requires a <= b
    ensures PieceOf(a, pieceLength) <= PieceOf(b, pieceLength)
  {
    DivMonotone(a, b, pieceLength);
  }

  /** Where a piece starts that comes after that of `a`, but not after that of `b`. */
  lemma StartBetween(a: nat, b: nat, pieceLength: pos, idx: nat) returns (i: nat)
    requires PieceOf(a, pieceLength) < idx <= PieceOf(b, pieceLength)
    ensures a <= i <= b && PieceOf(i, pieceLength) == idx
  {
    i := idx * pieceLength;
    DivExact(idx, 0, pieceLength);
    DivRange(b, b / pieceLength, pieceLength);
    DivRange(a, a / pieceLength, pieceLength);
    MulMonotone(pieceLength, idx, b / pieceLength);
    MulMonotone(pieceLength, a / pieceLength + 1, idx);
  }

  /** The piece that a file stops in, from where it ends. */
  lemma StopPiece(f: Span, pieceLength: pos)
    requires f.len > 0
    ensures var end := f.off + f.len;
      && f.off / pieceLength <= (end - 1) / pieceLength <= end / pieceLength
      && (end - 1) / pieceLength == end / pieceLength - if end / pieceLength > f.off / pieceLength && end % pieceLength == 0 then 1 else 0
  {
    var end := f.off + f.len;
    var q, r := end / pieceLength, end % pieceLength;
    DivMonotone(f.off, end - 1, pieceLength);
    DivMonotone(end - 1, end, pieceLength);
    DivRange(end, q, pieceLength);
    if r > 0 {
      DivExact(q, r - 1, pieceLength);
    } else {
      assert q != 0;
      assert end - 1 == (q - 1) * pieceLength + (pieceLength - 1);
      DivExact(q - 1, pieceLength - 1, pieceLength);
    }
  }

  lemma StopInside(f: Span, total: nat, pieceLength: pos)
    requires 0 < f.len && f.off + f.len <= total
    ensures PieceOf(f.off + f.len - 1, pieceLength) < NPieces(total, pieceLength)
  {
    var last := f.off + f.len - 1;
    NPiecesCases(total, pieceLength);
    DivMonotone(last, total, pieceLength);
    DivRange(total, total / pieceLength, pieceLength);
    DivRange(last, last / pieceLength, pieceLength);
    if total % pieceLength == 0 {
      MulCancel(pieceLength, last / pieceLength, total / pieceLength);
    }
  }

  /** Leaves out, in whichever way takes fewer steps, all pieces from `start` to `stop`. */
  method LeaveOut(filter: Bitfield, start: nat, stop: nat)
    requires filter.Valid() && start <= stop < filter.nbits
    modifies filter, filter.b
    ensures filter.Valid() && forall i: nat :: i in filter.Elems() <==> i < filter.nbits && !(start <= i <= stop)
  {
    hide Members, Clean, Below, Bitfield.Shaped, Bitfield.Elems;
    if stop - start + 1 <= filter.nbits / 2 {
      filter.SetAll();
      for index := start to stop + 1
        invariant filter.Valid() && (filter.b == null || filter.b == old(filter.b) || fresh(filter.b))
        invariant forall i: nat :: i in filter.Elems() <==> i < filter.nbits && !(start <= i < index)
      {
        Positive(filter, index);
        filter.UnSet(index);
      }
    } else {
      filter.Clear();
      for index := 0 to start
        invariant filter.Valid() && (filter.b == null || filter.b == old(filter.b) || fresh(filter.b))
        invariant forall i: nat :: i in filter.Elems() <==> i < index
      {
        filter.Set(index);
      }
      for index := stop + 1 to filter.nbits
        invariant filter.Valid() && (filter.b == null || filter.b == old(filter.b) || fresh(filter.b))
        invariant forall i: nat :: i in filter.Elems() <==> i < start || stop < i < index
      {
        filter.Set(index);
      }
    }
  }

  lemma Positive(filter: Bitfield, idx: nat)
    requires filter.Valid() && idx in filter.Elems()
    ensures filter.nset > 0
  {
    filter.EmptyIff();
  }

  /** The first and the last piece of a file. */
  method Bounds(f: Span, pieceLength: pos) returns (start: nat, stop: nat)
    requires f.len > 0
    ensures start == PieceOf(f.off, pieceLength) <= stop == PieceOf(f.off + f.len - 1, pieceLength)
  {
    StopPiece(f, pieceLength);
    start, stop := f.off / pieceLength, (f.off + f.len) / pieceLength;
    if stop > start && (f.off + f.len) % pieceLength == 0 {
      stop := stop - 1;
    }
  }

  /** SetFilter: the pieces that file `nfile`, counted from 1, has no byte of; for no such file, no pieces. */
  method SetFilter(files: seq<Span>, total: pos, pieceLength: pos, nfile: nat, filter: Bitfield) returns (npieces: nat)
    requires filter.Valid() && filter.nbits == NPieces(total, pieceLength)
    requires forall i :: 0 <= i < |files| ==> files[i].off + files[i].len <= total
    modifies filter, filter.b
    ensures filter.Valid()
    ensures 0 < nfile <= |files| ==> npieces == filter.nbits - |filter.Elems()|
    ensures forall idx: nat :: idx in filter.Elems() <==>
      idx < filter.nbits && 0 < nfile <= |files| && !Touches(files[nfile - 1], pieceLength, idx)
  {
    hide Members, Clean, Below, Bitfield.Shaped, Bitfield.Elems, Touches, PieceOf, NPieces;
    npieces := 0;
    if nfile == 0 || nfile > |files| {
      filter.Clear();
      return;
    }
    var id, p := 1, 0;
    while id != nfile
      invariant p == id - 1 < nfile
    {
      id, p := id + 1, p + 1;
    }
    var f := files[p];
    if f.len == 0 {
      filter.SetAll();
      TouchesNone(f, pieceLength);
      filter.EmptyIff();
      return;
    }
    var start, stop := Bounds(f, pieceLength);
    StopInside(f, total, pieceLength);
    npieces := stop - start + 1;
    LeaveOut(filter, start, stop);
    Remaining(filter.Elems(), filter.nbits, start, stop);
    forall idx: nat ensures Touches(f, pieceLength, idx) <==> start <= idx <= stop {
      TouchesRange(f, pieceLength, idx);
    }
  }

  lemma Remaining(s: set<nat>, n: nat, start: nat, stop: nat)
    requires start <= stop < n && forall i: nat :: i in s <==> i < n && !(start <= i <= stop)
    ensures |s| == n - (stop - start + 1)
  {
    hide Below;
    var gone := Below(stop + 1) - Below(start);
    Apart(Below(start), gone, Below(stop + 1));
    Apart(s, gone, Below(n));
  }

  lemma Apart(a: set<nat>, b: set<nat>, all: set<nat>)
    requires a !! b && all == a + b
    ensures |all| == |a| + |b|
  {
  }

  lemma TouchesNone(f: Span, pieceLength: pos)
    requires f.len == 0
    ensures forall idx: nat :: !Touches(f, pieceLength, idx)
  {
  }
}
