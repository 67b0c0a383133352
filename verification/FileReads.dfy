/** What a read gets from real files and staging files, whatever lengths the real files have reached (btfiles.cpp,
    IO). */
module FileReads {
  import opened Bytes
  import opened FileLayout
  import opened FileWrites
  import opened Options

  /** The list is sorted, files before a real one end by its start, and a staging file ends by the start of the next
      file. */
  ghost predicate InRow(xs: seq<Ext>) {
    && (forall i, j :: 0 <= i < j < |xs| ==> xs[i].offset <= xs[j].offset)
    && (forall i, j :: 0 <= i < j < |xs| && !xs[j].staging ==> xs[i].End() <= xs[j].offset)
    && (forall i :: 0 <= i < |xs| - 1 && xs[i].staging ==> xs[i].End() <= xs[i + 1].offset)
  }

  /** The first file that holds `off`, or the length of the list. */
  ghost function First(xs: seq<Ext>, off: nat): (j: nat)
    ensures j <= |xs| && (j < |xs| ==> xs[j].Covers(off))
    ensures forall k :: 0 <= k < j ==> !xs[k].Covers(off)
  {
    if xs == [] || xs[0].Covers(off) then 0 else First(xs[1..], off) + 1
  }

  /** The loop of a read, from entry `j` on. None: it fails, or it comes upon a file that ends before `pos`, and takes
      all it still wants from past the end of that file. */
  ghost function Walk(xs: seq<Ext>, j: nat, pos: nat, len: nat): Option<seq<byte>>
    requires j <= |xs|
    decreases |xs| - j
  {
    if len == 0 then Some([])
    else if j == |xs| || pos < xs[j].offset || xs[j].End() < pos then None
    else
      var at := pos - xs[j].offset;
      var nio := if len <= |xs[j].data| - at then len else |xs[j].data| - at;
      match Walk(xs, j + 1, pos + nio, len - nio)
      case None => None
      case Some(rest) => Some(xs[j].data[at..at + nio] + rest)
  }

  /** What has been read, and what the rest of the walk gives. */
  ghost function Joined(data: seq<byte>, rest: Option<seq<byte>>): Option<seq<byte>> {
    match rest
    case None => None
    case Some(more) => Some(data + more)
  }

  ghost function ReadAt(xs: seq<Ext>, off: nat, len: nat): Option<seq<byte>> {
    Walk(xs, First(xs, off), off, len)
  }

  lemma WalkBegin(xs: seq<Ext>, off: nat, len: nat)
    ensures Joined([], Walk(xs, First(xs, off), off, len)) == ReadAt(xs, off, len)
  {
    var w := Walk(xs, First(xs, off), off, len);
    assert w.Some? ==> [] + w.value == w.value;
  }

  /** What entry `j` gives joins what there is already. */
  lemma WalkStep(xs: seq<Ext>, j: nat, pos: nat, len: nat, data: seq<byte>)
    requires j < |xs| && 0 < len && xs[j].offset <= pos <= xs[j].End()
    ensures var at := pos - xs[j].offset;
      var nio := if len <= |xs[j].data| - at then len else |xs[j].data| - at;
      Joined(data, Walk(xs, j, pos, len)) == Joined(data + xs[j].data[at..at + nio], Walk(xs, j + 1, pos + nio, len - nio))
  {
    var at := pos - xs[j].offset;
    var nio := if len <= |xs[j].data| - at then len else |xs[j].data| - at;
    var w := Walk(xs, j + 1, pos + nio, len - nio);
    var part := xs[j].data[at..at + nio];
    assert w.Some? ==> data + (part + w.value) == data + part + w.value;
  }

  lemma WalkEnd(xs: seq<Ext>, j: nat, pos: nat, len: nat, data: seq<byte>)
    requires j <= |xs|
    ensures len == 0 ==> Joined(data, Walk(xs, j, pos, len)) == Some(data)
    ensures 0 < len && j < |xs| && xs[j].End() < pos ==> Joined(data, Walk(xs, j, pos, len)) == None
  {
    assert data + [] == data;
  }

  ghost predicate Present(xs: seq<Ext>, off: nat, len: nat) {
    forall i: nat :: off <= i < off + len ==> View(xs, i).Some?
  }

  ghost predicate Shows(xs: seq<Ext>, off: nat, data: seq<byte>) {
    forall i: nat :: off <= i < off + |data| ==> View(xs, i) == Some(data[i - off])
  }

  /** The read goes on past the end of a real file that has passed the staging file behind it. */
  ghost predicate Strays(xs: seq<Ext>, i: nat, off: nat, len: nat) {
    && i + 1 < |xs| && !xs[i].staging && xs[i + 1].staging
    && xs[i + 1].End() < xs[i].End() && off < xs[i].End() < off + len
  }

  /** Where the walk stands: nothing before entry `j` reaches past `pos`, and entry `j` holds `pos` or has just been
      read to its end. */
  ghost predicate Stands(xs: seq<Ext>, j: nat, off: nat, pos: nat) {
    Reaches(xs, j, pos) && off <= pos && (pos < xs[j].End() || off < pos)
  }

  /** Past entry `j`, with more to read: the next entry holds `pos` too or ends there, or `j` has passed it. */
  lemma StandsNext(xs: seq<Ext>, j: nat, off: nat, len: nat, pos: nat)
    requires InRow(xs) && Present(xs, off, len) && Stands(xs, j, off, pos)
    requires xs[j].End() < off + len
    ensures j + 1 < |xs| && xs[j + 1].offset <= xs[j].End()
    ensures xs[j + 1].End() < xs[j].End() ==> Strays(xs, j, off, len)
    ensures xs[j + 1].End() >= xs[j].End() ==> Stands(xs, j + 1, off, xs[j].End())
  {
    var end := xs[j].End();
    ViewNone(xs, end);
    assert View(xs, end).Some?;
    var k :| 0 <= k < |xs| && xs[k].Covers(end);
    assert k > j;
    assert xs[j + 1].offset <= xs[k].offset;
  }

  lemma {:induction false} WalkRight(xs: seq<Ext>, j: nat, off: nat, len: nat, pos: nat)
    requires InRow(xs) && Present(xs, off, len) && j < |xs| && Stands(xs, j, off, pos) && pos <= off + len
    requires forall i: nat :: !Strays(xs, i, off, len)
    ensures var r := Walk(xs, j, pos, off + len - pos);
      r.Some? && |r.value| == off + len - pos && Shows(xs, pos, r.value)
    decreases |xs| - j
  {
    hide InRow, Present, Strays, View, Shows;
    if pos < off + len {
      var at := pos - xs[j].offset;
      var nio := if off + len - pos <= |xs[j].data| - at then off + len - pos else |xs[j].data| - at;
      ShowsPart(xs, j, pos, nio);
      if pos + nio < off + len {
        StandsNext(xs, j, off, len, pos);
        WalkRight(xs, j + 1, off, len, pos + nio);
        ShowsMore(xs, pos, xs[j].data[at..at + nio], Walk(xs, j + 1, pos + nio, off + len - pos - nio).value);
      } else {
        assert Walk(xs, j + 1, pos + nio, 0) == Some([]);
        assert xs[j].data[at..at + nio] + [] == xs[j].data[at..at + nio];
      }
    } else {
      ShowsPart(xs, j, pos, 0);
      assert xs[j].data[pos - xs[j].offset..pos - xs[j].offset] == [];
    }
  }

  lemma ShowsPart(xs: seq<Ext>, j: nat, pos: nat, nio: nat)
    requires Reaches(xs, j, pos) && pos + nio <= xs[j].End()
    ensures Shows(xs, pos, xs[j].data[pos - xs[j].offset..pos - xs[j].offset + nio])
  {
    forall i: nat | pos <= i < pos + nio ensures View(xs, i) == Some(xs[j].data[i - xs[j].offset]) {
      ViewFirst(xs, j, i);
    }
  }

  lemma ShowsMore(xs: seq<Ext>, pos: nat, a: seq<byte>, b: seq<byte>)
    requires Shows(xs, pos, a) && Shows(xs, pos + |a|, b)
    ensures Shows(xs, pos, a + b)
  {
  }

  lemma {:induction false} WalkStrays(xs: seq<Ext>, j: nat, off: nat, len: nat, pos: nat, i: nat)
    requires InRow(xs) && Present(xs, off, len) && j <= i < |xs| && Stands(xs, j, off, pos)
    requires Strays(xs, i, off, len) && pos <= xs[i].End()
    ensures Walk(xs, j, pos, off + len - pos) == None
    decreases |xs| - j
  {
    assert j < i ==> xs[j].End() <= xs[i].offset;
    if j < i {
      StandsNext(xs, j, off, len, pos);
      if xs[j + 1].End() >= xs[j].End() {
        WalkStrays(xs, j + 1, off, len, xs[j].End(), i);
      }
    }
  }

  lemma TiledInRow(xs: seq<Ext>, total: nat)
    requires Tiled(xs, total)
    ensures InRow(xs)
  {
    forall i, j | 0 <= i < j < |xs| && !xs[j].staging ensures xs[i].End() <= xs[j].offset { EndBefore(xs, total, i, j); }
    forall i | 0 <= i < |xs| - 1 && xs[i].staging ensures xs[i].End() <= xs[i + 1].offset {
      assert EntryTiled(xs, total, i);
    }
  }

  /** Reads of bytes that are there return them, except exactly those that go on past the end of a real file that has
      passed the staging file behind it. */
  lemma ReadExact(xs: seq<Ext>, total: nat, off: nat, len: nat)
    requires Tiled(xs, total) && Present(xs, off, len)
    ensures ReadAt(xs, off, len).Some? <==> forall i: nat :: !Strays(xs, i, off, len)
    ensures ReadAt(xs, off, len).Some? ==> |ReadAt(xs, off, len).value| == len && Shows(xs, off, ReadAt(xs, off, len).value)
  {
    TiledInRow(xs, total);
    if len > 0 {
      ViewNone(xs, off);
      assert View(xs, off).Some?;
      var j := First(xs, off);
      forall k | 0 <= k < j ensures xs[k].End() <= off {
        assert xs[k].offset <= xs[j].offset;
      }
      if i: nat :| Strays(xs, i, off, len) {
        assert off < xs[i].offset || xs[i].Covers(off);
        WalkStrays(xs, j, off, len, off, i);
      } else {
        WalkRight(xs, j, off, len, off);
      }
    }
  }

  /** In a strict list no read strays. */
  lemma StrictReads(xs: seq<Ext>, total: nat, off: nat, len: nat)
    requires Tiled(xs, total) && Strict(xs) && Present(xs, off, len)
    ensures ReadAt(xs, off, len).Some? && |ReadAt(xs, off, len).value| == len && Shows(xs, off, ReadAt(xs, off, len).value)
  {
    ReadExact(xs, total, off, len);
  }

  /** When a real file of a strict list grows, the reads across its new end stray exactly if it passes the staging file
      behind it. */
  lemma PassedReads(xs: seq<Ext>, total: nat, j: nat, data: seq<byte>, off: nat, len: nat)
    requires Tiled(xs, total) && Strict(xs) && j + 1 < |xs| && !xs[j].staging && xs[j + 1].staging
    requires |xs[j].data| <= |data| <= xs[j].length
    requires var ys := xs[j := xs[j].(data := data)]; Present(ys, off, len) && off < ys[j].End() < off + len
    ensures ReadAt(xs[j := xs[j].(data := data)], off, len).Some? <==> xs[j].offset + |data| <= xs[j + 1].End()
  {
    var ys := xs[j := xs[j].(data := data)];
    TiledUpdate(xs, total, j, data);
    ReadExact(ys, total, off, len);
    forall i: nat | i != j ensures !Strays(ys, i, off, len) {
    }
    if ys[j + 1].End() < ys[j].End() { assert Strays(ys, j, off, len); }
  }
}
