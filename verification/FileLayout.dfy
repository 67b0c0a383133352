/** The layout of the torrent data over real files and staging files (btfiles.cpp), as values. */
module FileLayout {
  import opened Bytes
  import opened Options
  import opened Sequences

  /** One BTFILE: a real file of final length `length`, or a staging file; `data` is what it holds so far. */
  datatype Ext = Ext(offset: nat, length: nat, staging: bool, data: seq<byte>) {
    function End(): nat { offset + |data| }

    predicate Covers(i: int) { offset <= i < offset + |data| }
  }

  /** The byte at torrent offset `i`: from the first file of the list that holds it. */
  ghost function View(xs: seq<Ext>, i: nat): Option<byte> {
    if xs == [] then None
    else if xs[0].Covers(i) then Some(xs[0].data[i - xs[0].offset])
    else View(xs[1..], i)
  }

  /** Where the real file after entry `i` starts, or the end of the torrent. */
  ghost function Limit(xs: seq<Ext>, total: nat, i: nat): nat
    requires i < |xs|
    decreases |xs| - i
  {
    if i + 1 == |xs| then total
    else if !xs[i + 1].staging then xs[i + 1].offset
    else Limit(xs, total, i + 1)
  }

  /** Where the entry after `i` starts, or the end of the torrent. */
  ghost function Next(xs: seq<Ext>, total: nat, i: nat): nat
    requires i < |xs|
  {
    if i + 1 < |xs| then xs[i + 1].offset else total
  }

  ghost predicate EntryTiled(xs: seq<Ext>, total: nat, i: nat)
    requires i < |xs|
  {
    if xs[i].staging then xs[i].End() <= Next(xs, total, i)
    else |xs[i].data| <= xs[i].length && xs[i].offset + xs[i].length == Limit(xs, total, i)
  }

  /** The list is sorted, the real files tile the torrent, and the staging files are inside the real file they follow and
      share nothing. How far a real file reaches into the staging files behind it is left open. */
  ghost predicate Tiled(xs: seq<Ext>, total: nat) {
    && 0 < |xs| && !xs[0].staging && xs[0].offset == 0
    && (forall i, j :: 0 <= i < j < |xs| ==> xs[i].offset <= xs[j].offset)
    && (forall i :: 0 <= i < |xs| ==> EntryTiled(xs, total, i))
  }

  lemma {:induction false} ViewFirst(xs: seq<Ext>, j: nat, i: nat)
    requires j < |xs| && xs[j].Covers(i)
    requires forall k :: 0 <= k < j ==> !xs[k].Covers(i)
    ensures View(xs, i) == Some(xs[j].data[i - xs[j].offset])
  {
    if j > 0 { ViewFirst(xs[1..], j - 1, i); }
  }

  lemma {:induction false} ViewNone(xs: seq<Ext>, i: nat)
    ensures View(xs, i) == None <==> forall k :: 0 <= k < |xs| ==> !xs[k].Covers(i)
  {
    if xs != [] {
      ViewNone(xs[1..], i);
      assert forall k :: 0 < k < |xs| ==> xs[k] == xs[1..][k - 1];
      assert forall k :: 0 <= k < |xs| - 1 ==> xs[1..][k] == xs[k + 1];
    }
  }

  /** Changing one entry where it does not hold `i` before or after does not change the byte at `i`. */
  lemma {:induction false} ViewUpdate(xs: seq<Ext>, j: nat, x: Ext, i: nat)
    requires j < |xs| && xs[j].Covers(i) == x.Covers(i)
    requires x.Covers(i) ==> x.data[i - x.offset] == xs[j].data[i - xs[j].offset]
    ensures View(xs[j := x], i) == View(xs, i)
  {
    if j > 0 {
      ViewUpdate(xs[1..], j - 1, x, i);
      assert xs[j := x][1..] == xs[1..][j - 1 := x];
    }
  }

  lemma {:induction false} ViewWith(xs: seq<Ext>, j: nat, x: Ext, i: nat)
    requires j <= |xs| && !x.Covers(i)
    ensures View(With(xs, j, x), i) == View(xs, i)
  {
    if j > 0 {
      ViewWith(xs[1..], j - 1, x, i);
      assert With(xs, j, x)[1..] == With(xs[1..], j - 1, x);
    } else {
      assert With(xs, 0, x)[1..] == xs;
    }
  }

  /** Taking out an entry that is hidden at `i` by an earlier one does not change the byte at `i`. */
  lemma {:induction false} ViewWithout(xs: seq<Ext>, j: nat, k: nat, i: nat)
    requires k < j < |xs| && (xs[j].Covers(i) ==> xs[k].Covers(i))
    ensures View(Without(xs, j), i) == View(xs, i)
  {
    assert Without(xs, j)[1..] == Without(xs[1..], j - 1);
    if k > 0 {
      ViewWithout(xs[1..], j - 1, k - 1, i);
    } else if !xs[0].Covers(i) {
      ViewDrop(xs[1..], j - 1, i);
    }
  }

  lemma {:induction false} ViewDrop(xs: seq<Ext>, j: nat, i: nat)
    requires j < |xs| && !xs[j].Covers(i)
    ensures View(Without(xs, j), i) == View(xs, i)
  {
    if j > 0 {
      assert Without(xs, j)[1..] == Without(xs[1..], j - 1);
      ViewDrop(xs[1..], j - 1, i);
    } else {
      assert Without(xs, 0) == xs[1..];
    }
  }

  /** A real file after entry `i` starts at its limit or later; staging files before that end by it. */
  lemma {:induction false} LimitBounds(xs: seq<Ext>, total: nat, i: nat, k: nat)
    requires Tiled(xs, total) && i <= k < |xs|
    ensures k > i && !xs[k].staging ==> Limit(xs, total, i) <= xs[k].offset
    ensures (forall m :: i < m <= k ==> xs[m].staging) ==>
      Limit(xs, total, i) == Limit(xs, total, k) && xs[k].End() <= Limit(xs, total, k)
    decreases k - i
  {
    assert EntryTiled(xs, total, k);
    StagingLimit(xs, total, k);
    if i < k { LimitBounds(xs, total, i + 1, k); }
  }

  lemma {:induction false} StagingLimit(xs: seq<Ext>, total: nat, i: nat)
    requires Tiled(xs, total) && i < |xs|
    ensures Next(xs, total, i) <= Limit(xs, total, i)
    decreases |xs| - i
  {
    if i + 1 < |xs| && xs[i + 1].staging {
      assert EntryTiled(xs, total, i + 1);
      StagingLimit(xs, total, i + 1);
    }
  }

  /** `data` with `part` written from `pos` on, growing it if need be. */
  function Patch(data: seq<byte>, pos: nat, part: seq<byte>): (r: seq<byte>)
    requires pos <= |data|
    ensures |r| == if pos + |part| > |data| then pos + |part| else |data|
    ensures forall i :: 0 <= i < |r| ==> r[i] == if pos <= i < pos + |part| then part[i - pos] else data[i]
  {
    data[..pos] + part + (if pos + |part| < |data| then data[pos + |part|..] else [])
  }

  /** The flat array `ys` shows is the one `xs` shows with `part` written at `off`. */
  ghost predicate ViewWritten(xs: seq<Ext>, ys: seq<Ext>, off: nat, part: seq<byte>) {
    forall i: nat :: View(ys, i) == if off <= i < off + |part| then Some(part[i - off]) else View(xs, i)
  }

  /** Only bytes of [off, off+len) may show differently, and none of them goes missing. */
  ghost predicate ChangedWithin(xs: seq<Ext>, ys: seq<Ext>, off: nat, len: nat) {
    && (forall i: nat :: off <= i < off + len || View(ys, i) == View(xs, i))
    && (forall i: nat :: View(xs, i).Some? ==> View(ys, i).Some?)
  }

  ghost predicate SameView(xs: seq<Ext>, ys: seq<Ext>) {
    forall i: nat :: View(ys, i) == View(xs, i)
  }

  lemma WrittenTwice(xs: seq<Ext>, ys: seq<Ext>, zs: seq<Ext>, off: nat, a: seq<byte>, b: seq<byte>)
    requires ViewWritten(xs, ys, off, a) && ViewWritten(ys, zs, off + |a|, b)
    ensures ViewWritten(xs, zs, off, a + b)
  {
  }

  /** Entry `j` holds `off` or ends there, and no earlier entry reaches past `off`. */
  ghost predicate Reaches(xs: seq<Ext>, j: nat, off: nat) {
    j < |xs| && xs[j].offset <= off <= xs[j].End() && forall k :: 0 <= k < j ==> xs[k].End() <= off
  }

  /** A new entry may go in at `k` for `off`: past the entries before it, and no later than the one behind it. */
  ghost predicate Between(xs: seq<Ext>, k: nat, off: nat) {
    0 < k <= |xs| && (forall i :: 0 <= i < k ==> xs[i].End() <= off) && (k < |xs| ==> off <= xs[k].offset)
  }

  lemma EndBefore(xs: seq<Ext>, total: nat, k: nat, j: nat)
    requires Tiled(xs, total) && k < j < |xs| && !xs[j].staging
    ensures xs[k].End() <= xs[j].offset
  {
    assert EntryTiled(xs, total, k);
    LimitBounds(xs, total, k, j);
    StagingLimit(xs, total, k);
  }

  lemma {:induction false} LimitUpdate(xs: seq<Ext>, total: nat, j: nat, data: seq<byte>, i: nat)
    requires i < |xs| && j < |xs|
    ensures Limit(xs[j := xs[j].(data := data)], total, i) == Limit(xs, total, i)
    decreases |xs| - i
  {
    if i + 1 < |xs| { LimitUpdate(xs, total, j, data, i + 1); }
  }

  /** What entry `j` may grow to: exactly this keeps the list tiled. */
  ghost predicate MayHold(xs: seq<Ext>, total: nat, j: nat, data: seq<byte>)
    requires j < |xs|
  {
    if xs[j].staging then xs[j].offset + |data| <= Next(xs, total, j)
    else |data| <= xs[j].length
  }

  lemma TiledUpdate(xs: seq<Ext>, total: nat, j: nat, data: seq<byte>)
    requires Tiled(xs, total) && j < |xs| && |xs[j].data| <= |data|
    ensures Tiled(xs[j := xs[j].(data := data)], total) <==> MayHold(xs, total, j, data)
  {
    var ys := xs[j := xs[j].(data := data)];
    forall i | 0 <= i < |xs| ensures Limit(ys, total, i) == Limit(xs, total, i) && Next(ys, total, i) == Next(xs, total, i) {
      LimitUpdate(xs, total, j, data, i);
    }
    assert EntryTiled(xs, total, j);
    if MayHold(xs, total, j, data) {
      forall i | 0 <= i < |ys| ensures EntryTiled(ys, total, i) {
        assert EntryTiled(xs, total, i);
      }
    }
    assert Tiled(ys, total) ==> EntryTiled(ys, total, j);
  }

  lemma ViewPatched(xs: seq<Ext>, j: nat, off: nat, part: seq<byte>)
    requires Reaches(xs, j, off)
    ensures ViewWritten(xs, xs[j := xs[j].(data := Patch(xs[j].data, off - xs[j].offset, part))], off, part)
  {
    var x := xs[j].(data := Patch(xs[j].data, off - xs[j].offset, part));
    var ys := xs[j := x];
    forall i: nat ensures View(ys, i) == if off <= i < off + |part| then Some(part[i - off]) else View(xs, i) {
      if off <= i < off + |part| {
        ViewFirst(ys, j, i);
      } else {
        ViewUpdate(xs, j, x, i);
      }
    }
  }

  lemma {:induction false} LimitWith(xs: seq<Ext>, total: nat, j: nat, x: Ext, i: nat)
    requires i < |xs| && 0 < j <= |xs| && x.staging
    ensures i < j ==> Limit(With(xs, j, x), total, i) == Limit(xs, total, i)
    ensures i == j - 1 ==> Limit(With(xs, j, x), total, j) == Limit(xs, total, i)
    ensures i >= j ==> Limit(With(xs, j, x), total, i + 1) == Limit(xs, total, i)
    decreases |xs| - i
  {
    if i + 1 < |xs| { LimitWith(xs, total, j, x, i + 1); }
  }

  /** A new staging file keeps the list tiled, and shows the bytes it holds. */
  lemma Inserted(xs: seq<Ext>, total: nat, k: nat, off: nat, part: seq<byte>)
    requires Tiled(xs, total) && Between(xs, k, off) && off + |part| <= (if k < |xs| then xs[k].offset else total)
    ensures Tiled(With(xs, k, Ext(off, 0, true, part)), total)
    ensures ViewWritten(xs, With(xs, k, Ext(off, 0, true, part)), off, part)
  {
    var x := Ext(off, 0, true, part);
    var ys := With(xs, k, x);
    InsertedTiled(xs, total, k, x);
    forall i: nat ensures View(ys, i) == if off <= i < off + |part| then Some(part[i - off]) else View(xs, i) {
      if off <= i < off + |part| {
        ViewFirst(ys, k, i);
      } else {
        ViewWith(xs, k, x, i);
      }
    }
  }

  lemma EntryInserted(xs: seq<Ext>, total: nat, k: nat, x: Ext, i: nat)
    requires Between(xs, k, x.offset) && x.staging && i <= |xs|
    requires x.End() <= (if k < |xs| then xs[k].offset else total)
    requires i < k ==> EntryTiled(xs, total, i)
    requires i > k ==> EntryTiled(xs, total, i - 1)
    ensures EntryTiled(With(xs, k, x), total, i)
  {
    if i < k {
      LimitWith(xs, total, k, x, i);
    } else if i > k {
      LimitWith(xs, total, k, x, i - 1);
    }
  }

  lemma InsertedTiled(xs: seq<Ext>, total: nat, k: nat, x: Ext)
    requires Tiled(xs, total) && Between(xs, k, x.offset) && x.staging
    requires x.End() <= (if k < |xs| then xs[k].offset else total)
    ensures Tiled(With(xs, k, x), total)
  {
    forall i | 0 <= i <= |xs| ensures EntryTiled(With(xs, k, x), total, i) {
      EntryInserted(xs, total, k, x, i);
    }
    forall i | 0 <= i < k ensures xs[i].offset <= x.offset { assert xs[i].offset <= xs[i].End(); }
    hide EntryTiled;
  }

  /** No staging file holds a byte of [off, off+len). */
  ghost predicate Unstaged(xs: seq<Ext>, off: nat, len: nat) {
    forall k :: 0 <= k < |xs| && xs[k].staging && 0 < len ==> off + len <= xs[k].offset || xs[k].End() <= off
  }

  /** Every staging file holds something, and if it is right behind a real file, a byte that the real file does not. */
  ghost predicate Strict(xs: seq<Ext>) {
    && (forall i :: 0 <= i < |xs| && xs[i].staging ==> 0 < |xs[i].data|)
    && (forall i :: 0 <= i < |xs| - 1 && !xs[i].staging && xs[i + 1].staging ==> xs[i].End() < xs[i + 1].End())
  }

  ghost predicate Clear(xs: seq<Ext>, off: nat, len: nat) {
    Strict(xs) && Unstaged(xs, off, len)
  }

  /** Writing what is not staged, into an entry or into a new one, keeps the list strict. */
  lemma ClearStep(xs: seq<Ext>, j: nat, off: nat, len: nat, part: seq<byte>)
    requires Clear(xs, off, len) && Reaches(xs, j, off) && |part| <= len
    ensures var ys := xs[j := xs[j].(data := Patch(xs[j].data, off - xs[j].offset, part))];
      Clear(ys, off + |part|, len - |part|)
  {
    var ys := xs[j := xs[j].(data := Patch(xs[j].data, off - xs[j].offset, part))];
    forall i | 0 <= i < |ys| - 1 && !ys[i].staging && ys[i + 1].staging ensures ys[i].End() < ys[i + 1].End() {
      assert xs[i].End() < xs[i + 1].End() && xs[i + 1].staging && 0 < |xs[i + 1].data|;
    }
    forall k | 0 <= k < |ys| && ys[k].staging && |part| < len ensures off + len <= ys[k].offset || ys[k].End() <= off + |part| {
      assert xs[k].staging;
    }
    forall k | 0 <= k < |ys| && ys[k].staging ensures 0 < |ys[k].data| { assert xs[k].staging; }
  }

  lemma ClearInserted(xs: seq<Ext>, k: nat, off: nat, len: nat, part: seq<byte>)
    requires Clear(xs, off, len) && Between(xs, k, off) && 0 < |part| <= len
    ensures Clear(With(xs, k, Ext(off, 0, true, part)), off + |part|, len - |part|)
  {
    var ys := With(xs, k, Ext(off, 0, true, part));
    forall i | 0 <= i < |ys| - 1 && !ys[i].staging && ys[i + 1].staging ensures ys[i].End() < ys[i + 1].End() {
      if i > k { assert ys[i] == xs[i - 1] && ys[i + 1] == xs[i]; }
    }
    forall i | 0 <= i < |ys| && ys[i].staging
      ensures 0 < |ys[i].data| && (|part| < len ==> off + len <= ys[i].offset || ys[i].End() <= off + |part|) {
      if i > k { assert ys[i] == xs[i - 1]; }
    }
  }

  /** Merges keep the list strict, as long as they stop before the last byte and when they are done. */
  lemma MergedStrict(xs: seq<Ext>, j: nat, t: nat)
    requires Mergeable(xs, j) && xs[j].End() + t < xs[j + 1].End() && Strict(xs)
    ensures Strict(Merged(xs, j, t))
  {
    var ys := Merged(xs, j, t);
    forall i | 0 <= i < |ys| - 1 && !ys[i].staging && ys[i + 1].staging ensures ys[i].End() < ys[i + 1].End() {
      assert xs[i].End() < xs[i + 1].End();
    }
    forall i | 0 <= i < |ys| && ys[i].staging ensures 0 < |ys[i].data| { assert xs[i].staging; }
  }

  lemma MergeDoneStrict(xs: seq<Ext>, total: nat, j: nat)
    requires Tiled(xs, total) && Mergeable(xs, j) && Strict(xs)
    ensures Strict(Without(Merged(xs, j, Rest(xs, j)), j + 1))
  {
    assert EntryTiled(xs, total, j + 1);
    var ys := Without(Merged(xs, j, Rest(xs, j)), j + 1);
    forall i | 0 <= i < |ys| - 1 && !ys[i].staging && ys[i + 1].staging ensures ys[i].End() < ys[i + 1].End() {
      if i == j {
        assert 0 < |xs[j + 2].data|;
      } else if i > j {
        assert xs[i + 1].End() < xs[i + 2].End();
      }
    }
    forall i | 0 <= i < |ys| && ys[i].staging ensures 0 < |ys[i].data| { assert xs[if i <= j then i else i + 1].staging; }
  }

  /** A real file and the staging file behind it, which the prefix has reached. */
  ghost predicate Mergeable(xs: seq<Ext>, j: nat) {
    && j + 1 < |xs| && !xs[j].staging && xs[j + 1].staging
    && |xs[j].data| < xs[j].length && xs[j].End() >= xs[j + 1].offset
  }

  /** How many bytes of the staging file are past the real file's prefix. */
  ghost function Rest(xs: seq<Ext>, j: nat): nat
    requires j + 1 < |xs|
  {
    if xs[j].End() < xs[j + 1].End() then xs[j + 1].End() - xs[j].End() else 0
  }

  /** The first `t` of them. */
  ghost function MergePart(xs: seq<Ext>, j: nat, t: nat): (r: seq<byte>)
    requires Mergeable(xs, j) && t <= Rest(xs, j)
    ensures |r| == t
  {
    var m := xs[j].End() - xs[j + 1].offset;
    if t == 0 then [] else xs[j + 1].data[m..m + t]
  }

  ghost function Merged(xs: seq<Ext>, j: nat, t: nat): (ys: seq<Ext>)
    requires Mergeable(xs, j) && t <= Rest(xs, j)
    ensures |ys| == |xs| && j < |xs|
  {
    xs[j := xs[j].(data := xs[j].data + MergePart(xs, j, t))]
  }

  /** Copying bytes of the staging file to the end of the prefix does not change what is shown. */
  lemma MergedView(xs: seq<Ext>, total: nat, j: nat, t: nat)
    requires Tiled(xs, total) && Mergeable(xs, j) && t <= Rest(xs, j)
    ensures SameView(xs, Merged(xs, j, t))
  {
    var ys := Merged(xs, j, t);
    forall i: nat ensures View(ys, i) == View(xs, i) {
      if xs[j].End() <= i < xs[j].End() + t {
        forall k | 0 <= k < j ensures xs[k].End() <= i { EndBefore(xs, total, k, j); }
        ViewFirst(xs, j + 1, i);
        ViewFirst(ys, j, i);
      } else {
        ViewUpdate(xs, j, ys[j], i);
      }
    }
  }

  lemma MergedTiled(xs: seq<Ext>, total: nat, j: nat, t: nat)
    requires Tiled(xs, total) && Mergeable(xs, j) && t <= Rest(xs, j)
    ensures Tiled(Merged(xs, j, t), total)
  {
    assert EntryTiled(xs, total, j) && EntryTiled(xs, total, j + 1);
    LimitBounds(xs, total, j, j + 1);
    TiledUpdate(xs, total, j, xs[j].data + MergePart(xs, j, t));
  }

  lemma {:induction false} LimitWithout(xs: seq<Ext>, total: nat, j: nat, i: nat)
    requires 0 < j < |xs| && xs[j].staging && i < |xs|
    ensures i < j ==> Limit(Without(xs, j), total, i) == Limit(xs, total, i)
    ensures i > j ==> Limit(Without(xs, j), total, i - 1) == Limit(xs, total, i)
    ensures i == j ==> Limit(Without(xs, j), total, j - 1) == Limit(xs, total, i)
    decreases |xs| - i
  {
    if i + 1 < |xs| { LimitWithout(xs, total, j, i + 1); }
  }

  lemma HiddenWithout(xs: seq<Ext>, j: nat)
    requires j + 1 < |xs| && xs[j].offset <= xs[j + 1].offset && xs[j + 1].End() <= xs[j].End()
    ensures SameView(xs, Without(xs, j + 1))
  {
    forall i: nat ensures View(Without(xs, j + 1), i) == View(xs, i) {
      ViewWithout(xs, j + 1, j, i);
    }
  }

  /** With everything copied, the staging file goes; the view stays, and the list is tiled. */
  lemma MergeDone(xs: seq<Ext>, total: nat, j: nat)
    requires Tiled(xs, total) && Mergeable(xs, j)
    ensures var ys := Without(Merged(xs, j, Rest(xs, j)), j + 1);
      Tiled(ys, total) && SameView(xs, ys)
  {
    assert xs[j].offset <= xs[j + 1].offset;
    hide Tiled, EntryTiled, View;
    var ys := Merged(xs, j, Rest(xs, j));
    MergedView(xs, total, j, Rest(xs, j));
    MergedTiled(xs, total, j, Rest(xs, j));
    HiddenWithout(ys, j);
    WithoutTiled(ys, total, j + 1);
  }

  /** A staging file may go. */
  lemma WithoutTiled(xs: seq<Ext>, total: nat, k: nat)
    requires Tiled(xs, total) && 0 < k < |xs| && xs[k].staging
    ensures Tiled(Without(xs, k), total)
  {
    var ys := Without(xs, k);
    forall i | 0 <= i < |ys| ensures EntryTiled(ys, total, i) {
      EntryWithout(xs, total, k, i);
    }
    hide EntryTiled;
  }

  lemma EntryWithout(xs: seq<Ext>, total: nat, k: nat, i: nat)
    requires 0 < k < |xs| && xs[k].staging && i < |xs| - 1
    requires EntryTiled(xs, total, if i < k then i else i + 1) && EntryTiled(xs, total, k) && xs[k].offset <= Next(xs, total, k)
    ensures EntryTiled(Without(xs, k), total, i)
  {
    LimitWithout(xs, total, k, if i < k then i else i + 1);
  }

  /** The index of the real file after entry `i`, or the length of the list. */
  ghost function RealAfter(xs: seq<Ext>, i: nat): nat
    requires i < |xs|
    decreases |xs| - i
  {
    if i + 1 == |xs| || !xs[i + 1].staging then i + 1 else RealAfter(xs, i + 1)
  }

  lemma {:induction false} RealAfterIs(xs: seq<Ext>, total: nat, i: nat)
    requires i < |xs|
    ensures i < RealAfter(xs, i) <= |xs|
    ensures forall k :: i < k < RealAfter(xs, i) ==> xs[k].staging
    ensures RealAfter(xs, i) < |xs| ==> !xs[RealAfter(xs, i)].staging
    ensures Limit(xs, total, i) == if RealAfter(xs, i) < |xs| then xs[RealAfter(xs, i)].offset else total
    decreases |xs| - i
  {
    if i + 1 < |xs| && xs[i + 1].staging { RealAfterIs(xs, total, i + 1); }
  }

  lemma {:induction false} RealAfterWith(xs: seq<Ext>, j: nat, x: Ext, i: nat)
    requires i < |xs| && 0 < j <= |xs| && x.staging
    ensures i < j ==> RealAfter(With(xs, j, x), i) == if RealAfter(xs, i) < j then RealAfter(xs, i) else RealAfter(xs, i) + 1
    ensures i == j - 1 ==> RealAfter(With(xs, j, x), j) == RealAfter(xs, i) + 1
    ensures i >= j ==> RealAfter(With(xs, j, x), i + 1) == RealAfter(xs, i) + 1
    decreases |xs| - i
  {
    RealAfterIs(xs, 0, i);
    if i + 1 < |xs| {
      RealAfterIs(xs, 0, i + 1);
      RealAfterWith(xs, j, x, i + 1);
    }
  }

  lemma {:induction false} RealAfterWithout(xs: seq<Ext>, j: nat, i: nat)
    requires i < |xs| && 0 < j < |xs| && xs[j].staging
    ensures i < j ==> RealAfter(Without(xs, j), i) == if RealAfter(xs, i) < j then RealAfter(xs, i) else RealAfter(xs, i) - 1
    ensures i == j ==> RealAfter(Without(xs, j), j - 1) == RealAfter(xs, i) - 1
    ensures i > j ==> RealAfter(Without(xs, j), i - 1) == RealAfter(xs, i) - 1
    decreases |xs| - i
  {
    RealAfterIs(xs, 0, i);
    if i + 1 < |xs| {
      RealAfterIs(xs, 0, i + 1);
      RealAfterWithout(xs, j, i + 1);
    }
  }

  lemma {:induction false} RealAfterUpdate(xs: seq<Ext>, j: nat, data: seq<byte>, i: nat)
    requires i < |xs| && j < |xs|
    ensures RealAfter(xs[j := xs[j].(data := data)], i) == RealAfter(xs, i)
    decreases |xs| - i
  {
    if i + 1 < |xs| { RealAfterUpdate(xs, j, data, i + 1); }
  }

  /** A real file that ends at or before `off` lets a search step straight to the next real file. */
  lemma SkipStaging(xs: seq<Ext>, total: nat, i: nat, off: nat)
    requires Tiled(xs, total) && i < |xs| && !xs[i].staging && xs[i].offset + xs[i].length <= off < total
    ensures i < RealAfter(xs, i) < |xs| && xs[RealAfter(xs, i)].offset <= off
    ensures forall k :: i <= k < RealAfter(xs, i) ==> xs[k].End() <= off
  {
    RealAfterIs(xs, total, i);
    assert EntryTiled(xs, total, i);
    forall k | i <= k < RealAfter(xs, i) ensures xs[k].End() <= off {
      LimitBounds(xs, total, i, k);
    }
  }

  function Sum(lengths: seq<nat>): nat {
    if lengths == [] then 0 else lengths[0] + Sum(lengths[1..])
  }

  lemma {:induction false} SumSuffix(lengths: seq<nat>, n: nat)
    requires n <= |lengths|
    ensures Sum(lengths[n..]) <= Sum(lengths)
  {
    if n > 0 {
      SumSuffix(lengths[1..], n - 1);
      assert lengths[1..][n - 1..] == lengths[n..];
    } else {
      assert lengths[0..] == lengths;
    }
  }

  /** Real files of the given lengths, from offset `off` on, none holding anything yet. */
  function Fresh(lengths: seq<nat>, off: nat): (r: seq<Ext>)
    ensures |r| == |lengths|
  {
    if lengths == [] then [] else [Ext(off, lengths[0], false, [])] + Fresh(lengths[1..], off + lengths[0])
  }

  /** Taking in one more file in front. */
  lemma FreshFrom(lengths: seq<nat>, n: nat, end: int)
    requires n < |lengths| && end + Sum(lengths[n + 1..]) == Sum(lengths)
    ensures lengths[n] <= end && end - lengths[n] + Sum(lengths[n..]) == Sum(lengths)
    ensures Fresh(lengths[n..], end - lengths[n]) == [Ext(end - lengths[n], lengths[n], false, [])] + Fresh(lengths[n + 1..], end)
  {
    assert lengths[n..][1..] == lengths[n + 1..];
    SumSuffix(lengths, n);
  }

  lemma {:induction false} FreshAt(lengths: seq<nat>, off: nat, i: nat)
    requires i < |lengths|
    ensures var xs := Fresh(lengths, off);
      && !xs[i].staging && xs[i].data == [] && off <= xs[i].offset
      && xs[i].offset + xs[i].length == if i + 1 < |xs| then xs[i + 1].offset else off + Sum(lengths)
  {
    if i > 0 {
      FreshAt(lengths[1..], off + lengths[0], i - 1);
    } else if |lengths| > 1 {
      assert Fresh(lengths[1..], off + lengths[0])[0].offset == off + lengths[0];
    }
  }

  lemma {:induction false} FreshSorted(lengths: seq<nat>, off: nat, i: nat, j: nat)
    requires i < j < |lengths|
    ensures Fresh(lengths, off)[i].offset <= Fresh(lengths, off)[j].offset
  {
    if i > 0 {
      FreshSorted(lengths[1..], off + lengths[0], i - 1, j - 1);
    } else {
      FreshAt(lengths, off, j);
    }
  }

  /** Real files that tile [0, total) and hold nothing are laid out right. */
  lemma RealsTiled(xs: seq<Ext>, total: nat)
    requires 0 < |xs| && xs[0].offset == 0
    requires forall i :: 0 <= i < |xs| ==> !xs[i].staging && xs[i].data == []
    requires forall i :: 0 <= i < |xs| ==> xs[i].offset + xs[i].length == Next(xs, total, i)
    requires forall i, j :: 0 <= i < j < |xs| ==> xs[i].offset <= xs[j].offset
    ensures Tiled(xs, total)
    ensures forall i :: 0 <= i < |xs| ==> RealAfter(xs, i) == i + 1 && !Mergeable(xs, i)
  {
    forall i | 0 <= i < |xs| ensures Limit(xs, total, i) == Next(xs, total, i) && RealAfter(xs, i) == i + 1 {
      if i + 1 < |xs| { assert !xs[i + 1].staging; }
    }
  }

  lemma FreshTiled(lengths: seq<nat>)
    requires lengths != []
    ensures Tiled(Fresh(lengths, 0), Sum(lengths))
    ensures forall i :: 0 <= i < |lengths| ==> RealAfter(Fresh(lengths, 0), i) == i + 1 && !Mergeable(Fresh(lengths, 0), i)
    ensures forall i :: 0 <= i < |lengths| ==> Fresh(lengths, 0)[i].data == []
  {
    hide Limit, RealAfter, Tiled, Mergeable;
    var xs, total := Fresh(lengths, 0), Sum(lengths);
    assert xs[0].offset == 0;
    forall i | 0 <= i < |xs| ensures !xs[i].staging && xs[i].data == [] && xs[i].offset + xs[i].length == Next(xs, total, i) {
      FreshAt(lengths, 0, i);
    }
    forall i, j | 0 <= i < j < |xs| ensures xs[i].offset <= xs[j].offset { FreshSorted(lengths, 0, i, j); }
    RealsTiled(xs, total);
  }
}
