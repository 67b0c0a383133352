/** Where a write puts its bytes, as a function of what the files hold (btfiles.cpp, IO). */
module FileWrites {
  import opened Bytes
  import opened FileLayout
  import opened Sequences

  const MAX_STAGEFILE_SIZE: nat := 2 * 1024 * 1024

  /** How the disk behaves during a write: so many portions go well, and of the next one these bytes get there. */
  datatype Disk = Disk(good: nat, torn: seq<byte>)

  /** The outcome: what the files hold; whether something can be merged now that could not; whether all went well;
      whether a new staging file was left empty; and whether bytes went to a file where they do not belong. */
  datatype Done = Done(xs: seq<Ext>, merge: bool, ok: bool, left: bool, lost: bool)

  /** A staging file that is to grow no further, and ends at `off`. */
  predicate Full(x: Ext, off: nat) {
    x.staging && |x.data| >= MAX_STAGEFILE_SIZE && off == x.End()
  }

  /** The search for the file to begin with, or for the file behind the gap: from entry `i` on. */
  ghost function Seek(xs: seq<Ext>, i: nat, off: nat): (j: nat)
    requires i <= |xs|
    ensures i <= j <= |xs|
    decreases |xs| - i
  {
    if i == |xs| || off < xs[i].offset then i
    else if off < xs[i].End() || (off == xs[i].End() && (!xs[i].staging || |xs[i].data| < MAX_STAGEFILE_SIZE)) then i
    else if !xs[i].staging && xs[i].offset + xs[i].length <= off then
      RealAfterIs(xs, 0, i);
      Seek(xs, RealAfter(xs, i), off)
    else Seek(xs, i + 1, off)
  }

  /** The next file starts before `off`: the room up to it is taken to be more than any length (the unsigned
      difference wraps). */
  ghost predicate Wraps(xs: seq<Ext>, j: nat, off: nat)
    requires j < |xs|
  {
    xs[j].staging && j + 1 < |xs| && xs[j + 1].offset < off
  }

  function UpTo(len: nat, off: nat, end: nat): (n: nat)
    ensures n <= len && (off <= end ==> off + n <= end && (n == len || off + n == end))
  {
    if end < off || len <= end - off then len else end - off
  }

  /** How many bytes go into entry `j`: up to the next file for a staging file, up to its final length for a real one. */
  ghost function Share(xs: seq<Ext>, j: nat, off: nat, len: nat): (n: nat)
    requires j < |xs|
    ensures n <= len
  {
    if !xs[j].staging then UpTo(len, off, xs[j].offset + xs[j].length)
    else if j + 1 == |xs| then len
    else UpTo(len, off, xs[j + 1].offset)
  }

  ghost function NewShare(xs: seq<Ext>, k: nat, off: nat, len: nat): (n: nat)
    requires k <= |xs|
    ensures n <= len
  {
    if k == |xs| then len else UpTo(len, off, xs[k].offset)
  }

  /** `x` with `part` written at `off`. Its size then counts the bytes between, too, which nobody has written. */
  function Put(x: Ext, off: nat, part: seq<byte>): (y: Ext)
    requires x.offset <= off
    ensures y.offset == x.offset && y.length == x.length && y.staging == x.staging && |x.data| <= |y.data|
    ensures off <= x.End() ==> y == x.(data := Patch(x.data, off - x.offset, part))
    ensures y.End() == if x.End() < off + |part| then off + |part| else x.End()
  {
    var data := if off <= x.End() then x.data else x.data + seq(off - x.End(), _ => 0);
    x.(data := Patch(data, off - x.offset, part))
  }

  /** `x` after a write of `nio` bytes at `off` has failed: its size is as before, and some bytes of it may be new. */
  function Torn(x: Ext, off: nat, torn: seq<byte>, nio: nat): (y: Ext)
    requires x.offset <= off
    ensures y.offset == x.offset && y.length == x.length && y.staging == x.staging && |x.data| == |y.data|
  {
    if |torn| <= nio && off + |torn| <= x.End() then x.(data := Patch(x.data, off - x.offset, torn)) else x
  }

  /** One round of the loop: what the files hold then, which entry is next, how many bytes have gone, and the rest as in
      the outcome; `stop` if the disk has failed. */
  datatype Round = Round(xs: seq<Ext>, next: nat, nio: nat, merge: bool, stop: bool, left: bool, lost: bool)

  /** `buf` is to go to `off`, and entry `j` is next: into it, or into a new staging file before it, or behind it if it is
      full. */
  ghost function RoundAt(xs: seq<Ext>, j: nat, off: nat, buf: seq<byte>, disk: Disk): (r: Round)
    requires j <= |xs| && buf != []
    ensures r.next <= |r.xs| && r.nio <= |buf| && (r.nio > 0 || |r.xs| - r.next < |xs| - j)
  {
    if j < |xs| && xs[j].offset <= off && !Full(xs[j], off) then
      var nio := Share(xs, j, off, |buf|);
      if disk.good == 0 then Round(xs[j := Torn(xs[j], off, disk.torn, nio)], j + 1, nio, false, true, false, false)
      else
        var ys := xs[j := Put(xs[j], off, buf[..nio])];
        Round(ys, j + 1, nio, Mergeable(ys, j), false, false, Wraps(xs, j, off))
    else
      var k := if j < |xs| && xs[j].offset <= off then j + 1 else j;
      var nio := NewShare(xs, k, off, |buf|);
      if disk.good == 0 then Round(With(xs, k, Ext(off, 0, true, [])), k + 1, nio, false, true, true, false)
      else Round(With(xs, k, Ext(off, 0, true, buf[..nio])), k + 1, nio, false, false, false, false)
  }

  /** Whether the next round is to make a new staging file. */
  ghost predicate Creates(xs: seq<Ext>, j: nat, off: nat)
    requires j <= |xs|
  {
    j == |xs| || off < xs[j].offset || Full(xs[j], off)
  }

  /** A round that goes into a file that is there. */
  lemma EnteredRound(xs: seq<Ext>, j: nat, off: nat, buf: seq<byte>, disk: Disk)
    requires j < |xs| && buf != [] && xs[j].offset <= off && !Full(xs[j], off)
    ensures var nio := Share(xs, j, off, |buf|);
      var torn, put := xs[j := Torn(xs[j], off, disk.torn, nio)], xs[j := Put(xs[j], off, buf[..nio])];
      RoundAt(xs, j, off, buf, disk) ==
        if disk.good == 0 then Round(torn, j + 1, nio, false, true, false, false)
        else Round(put, j + 1, nio, Mergeable(put, j), false, false, Wraps(xs, j, off))
  {
  }

  /** A round that makes a new staging file. */
  lemma CreatedRound(xs: seq<Ext>, j: nat, k: nat, off: nat, buf: seq<byte>, disk: Disk)
    requires j <= |xs| && k <= |xs| && buf != [] && Creates(xs, j, off)
    requires k == if j < |xs| && xs[j].offset <= off then j + 1 else j
    ensures var nio := NewShare(xs, k, off, |buf|);
      RoundAt(xs, j, off, buf, disk) ==
        if disk.good == 0 then Round(With(xs, k, Ext(off, 0, true, [])), k + 1, nio, false, true, true, false)
        else Round(With(xs, k, Ext(off, 0, true, buf[..nio])), k + 1, nio, false, false, false, false)
  {
  }

  /** The whole loop. */
  ghost function WriteFrom(xs: seq<Ext>, j: nat, off: nat, buf: seq<byte>, disk: Disk): (r: Done)
    requires j <= |xs| && buf != []
    decreases |buf|, |xs| - j
  {
    var s := RoundAt(xs, j, off, buf, disk);
    if s.stop then Done(s.xs, false, false, s.left, false)
    else if s.lost || s.nio == |buf| then Done(s.xs, s.merge, true, false, s.lost)
    else
      var r := WriteFrom(s.xs, s.next, off + s.nio, buf[s.nio..], disk.(good := disk.good - 1));
      r.(merge := s.merge || r.merge)
  }

  /** The loop taken apart: it ends with this round, or goes on after it. */
  lemma FromRound(xs: seq<Ext>, j: nat, off: nat, buf: seq<byte>, disk: Disk)
    requires j <= |xs| && buf != []
    ensures var s := RoundAt(xs, j, off, buf, disk);
      WriteFrom(xs, j, off, buf, disk) ==
        if s.stop then Done(s.xs, false, false, s.left, false)
        else if s.lost || s.nio == |buf| then Done(s.xs, s.merge, true, false, s.lost)
        else
          var r := WriteFrom(s.xs, s.next, off + s.nio, buf[s.nio..], disk.(good := disk.good - 1));
          r.(merge := s.merge || r.merge)
  {
    hide RoundAt;
  }

  ghost function WriteAt(xs: seq<Ext>, off: nat, buf: seq<byte>, disk: Disk): (r: Done) {
    if buf == [] then Done(xs, false, true, false, false) else WriteFrom(xs, Seek(xs, 0, off), off, buf, disk)
  }

  /** A write goes astray: it goes on past the end of a real file, behind which there are two staging files or more. */
  ghost predicate WriteStrays(xs: seq<Ext>, i: nat, off: nat, len: nat) {
    && i + 2 < |xs| && !xs[i].staging && xs[i + 1].staging && off <= xs[i].End()
    && xs[i + 2].offset < xs[i].offset + xs[i].length < off + len
  }

  /** Entry `j` is a staging file that the real file before it covers, up to `off`, where the next real file starts. */
  ghost predicate Covered(xs: seq<Ext>, j: nat, off: nat) {
    && 0 < j < |xs| && xs[j].staging && !xs[j - 1].staging
    && xs[j].End() <= off == xs[j - 1].End() == xs[j - 1].offset + xs[j - 1].length
  }

  /** A write has come to entry `j` right. */
  ghost predicate Arrives(xs: seq<Ext>, j: nat, off: nat) {
    && j <= |xs| && (forall k :: 0 <= k < j ==> xs[k].End() <= off)
    && (j < |xs| && xs[j].offset <= off ==> (off <= xs[j].End() && !Full(xs[j], off)) || Covered(xs, j, off))
    && (j == |xs| || off < xs[j].offset ==> 0 < j && (!xs[j - 1].staging ==> xs[j - 1].End() < off))
    && (0 < j && !xs[j - 1].staging ==> xs[j - 1].End() < off || off == xs[j - 1].offset + xs[j - 1].length)
  }

  lemma {:induction false} SeekArrives(xs: seq<Ext>, total: nat, i: nat, off: nat)
    requires Tiled(xs, total) && i <= |xs| && off < total
    requires forall k :: 0 <= k < i ==> xs[k].End() <= off
    requires forall k :: 0 <= k < i && !xs[k].staging ==> xs[k].End() < off
    requires i == |xs| || off < xs[i].offset ==> 0 < i
    ensures Arrives(xs, Seek(xs, i, off), off)
    ensures forall k :: 0 <= k < Seek(xs, i, off) && !xs[k].staging ==> xs[k].End() < off
    decreases |xs| - i
  {
    hide Tiled;
    if i < |xs| && xs[i].offset <= off {
      if off < xs[i].End() || (off == xs[i].End() && (!xs[i].staging || |xs[i].data| < MAX_STAGEFILE_SIZE)) {
      } else if !xs[i].staging && xs[i].offset + xs[i].length <= off {
        SkipStaging(xs, total, i, off);
        RealAfterIs(xs, total, i);
        SeekArrives(xs, total, RealAfter(xs, i), off);
      } else {
        SeekArrives(xs, total, i + 1, off);
      }
    }
  }

  /** What is right after a round that has not gone astray. */
  ghost predicate RoundFits(xs: seq<Ext>, total: nat, off: nat, buf: seq<byte>, s: Round)
    requires s.nio <= |buf|
  {
    && Tiled(s.xs, total)
    && (if s.stop then ChangedWithin(xs, s.xs, off, |buf|) else ViewWritten(xs, s.xs, off, buf[..s.nio]))
    && (!s.stop && s.nio < |buf| ==>
          s.next < |s.xs| && s.xs[s.next].offset <= off + s.nio && Arrives(s.xs, s.next, off + s.nio))
  }

  /** The share of entry `j`, when it holds `off` or ends there. */
  lemma ShareFits(xs: seq<Ext>, total: nat, j: nat, off: nat, len: nat)
    requires Tiled(xs, total) && Reaches(xs, j, off) && off + len <= total
    ensures var nio := Share(xs, j, off, len);
      && !Wraps(xs, j, off)
      && off + nio <= (if xs[j].staging then Next(xs, total, j) else xs[j].offset + xs[j].length)
      && (nio < len ==> off + nio == if xs[j].staging then Next(xs, total, j) else xs[j].offset + xs[j].length)
  {
    assert EntryTiled(xs, total, j);
  }

  /** Entry `j` after it has got `part`, at most its share. */
  lemma GrownFits(xs: seq<Ext>, total: nat, j: nat, off: nat, part: seq<byte>)
    requires Tiled(xs, total) && Reaches(xs, j, off)
    requires off + |part| <= if xs[j].staging then Next(xs, total, j) else xs[j].offset + xs[j].length
    ensures Tiled(xs[j := xs[j].(data := Patch(xs[j].data, off - xs[j].offset, part))], total)
  {
    assert EntryTiled(xs, total, j);
    TiledUpdate(xs, total, j, Patch(xs[j].data, off - xs[j].offset, part));
  }

  /** Where a write goes on that has filled entry `j`. */
  lemma OnwardFrom(xs: seq<Ext>, total: nat, j: nat, end: nat)
    requires Tiled(xs, total) && j < |xs| && end < total && forall k :: 0 <= k <= j ==> xs[k].End() <= end
    requires if xs[j].staging then end == Next(xs, total, j) else end == xs[j].offset + xs[j].length == xs[j].End()
    ensures j + 1 < |xs| && xs[j + 1].offset <= end && Arrives(xs, j + 1, end)
  {
    assert EntryTiled(xs, total, j);
    RealAfterIs(xs, total, j);
    StagingLimit(xs, total, j);
    if j + 1 < |xs| {
      assert EntryTiled(xs, total, j + 1);
      LimitBounds(xs, total, j, j + 1);
    }
  }

  lemma EnterFits(xs: seq<Ext>, total: nat, j: nat, off: nat, buf: seq<byte>, disk: Disk)
    requires Tiled(xs, total) && Reaches(xs, j, off) && !Full(xs[j], off) && buf != [] && off + |buf| <= total
    ensures RoundFits(xs, total, off, buf, RoundAt(xs, j, off, buf, disk)) && !RoundAt(xs, j, off, buf, disk).lost
  {
    hide Tiled, View, Arrives, Share, Wraps;
    var s := RoundAt(xs, j, off, buf, disk);
    ShareFits(xs, total, j, off, |buf|);
    if disk.good == 0 {
      TornFits(xs, total, j, off, disk.torn, s.nio, |buf|);
    } else {
      GrownFits(xs, total, j, off, buf[..s.nio]);
      ViewPatched(xs, j, off, buf[..s.nio]);
      if s.nio < |buf| {
        EndsBy(xs, total, j, off);
        OnwardFrom(s.xs, total, j, off + s.nio);
      }
    }
  }

  lemma EndsBy(xs: seq<Ext>, total: nat, j: nat, off: nat)
    requires Tiled(xs, total) && Reaches(xs, j, off)
    ensures xs[j].End() <= if xs[j].staging then Next(xs, total, j) else xs[j].offset + xs[j].length
  {
    assert EntryTiled(xs, total, j);
  }

  lemma TornFits(xs: seq<Ext>, total: nat, j: nat, off: nat, torn: seq<byte>, nio: nat, len: nat)
    requires Tiled(xs, total) && Reaches(xs, j, off) && nio <= len
    requires off + nio <= if xs[j].staging then Next(xs, total, j) else xs[j].offset + xs[j].length
    ensures Tiled(xs[j := Torn(xs[j], off, torn, nio)], total)
    ensures ChangedWithin(xs, xs[j := Torn(xs[j], off, torn, nio)], off, len)
  {
    hide Tiled, View;
    if |torn| <= nio && off + |torn| <= xs[j].End() {
      GrownFits(xs, total, j, off, torn);
      ViewPatched(xs, j, off, torn);
    } else {
      assert xs[j := xs[j]] == xs;
    }
  }

  /** A covered staging file gets nothing; unless the write goes astray there. */
  lemma CoveredFits(xs: seq<Ext>, total: nat, j: nat, off: nat, buf: seq<byte>, disk: Disk)
    requires Tiled(xs, total) && Covered(xs, j, off) && !Full(xs[j], off) && buf != [] && off + |buf| <= total
    requires forall k :: 0 <= k < j ==> xs[k].End() <= off
    ensures var s := RoundAt(xs, j, off, buf, disk);
      && (s.lost <==> !s.stop && Wraps(xs, j, off))
      && (!s.lost ==> RoundFits(xs, total, off, buf, s))
      && (s.lost ==> Limit(s.xs, total, j) == off < s.xs[j].End() && s.xs[j].staging)
  {
    var s := RoundAt(xs, j, off, buf, disk);
    assert EntryTiled(xs, total, j) && EntryTiled(xs, total, j - 1);
    StagingLimit(xs, total, j);
    assert Limit(xs, total, j - 1) == Limit(xs, total, j) == off;
    assert j + 1 < |xs|;
    hide Tiled, View, Arrives, EntryTiled;
    if s.stop {
      TornCovered(xs, total, j, off, disk.torn, s.nio, |buf|);
    } else if s.lost {
      LimitUpdate(xs, total, j, s.xs[j].data, j);
      assert s.xs == xs[j := xs[j].(data := s.xs[j].data)];
    } else {
      assert s.nio == 0;
      CoveredGrows(xs, total, j, off, s.xs[j].data);
      assert s.xs == xs[j := xs[j].(data := s.xs[j].data)];
      assert buf[..0] == [];
      OnwardFrom(s.xs, total, j, off);
    }
  }

  lemma CoveredGrows(xs: seq<Ext>, total: nat, j: nat, off: nat, data: seq<byte>)
    requires Tiled(xs, total) && Covered(xs, j, off) && j + 1 < |xs| && xs[j + 1].offset == off
    requires xs[j].offset + |data| == off
    ensures Tiled(xs[j := xs[j].(data := data)], total)
    ensures ViewWritten(xs, xs[j := xs[j].(data := data)], off, [])
  {
    TiledUpdate(xs, total, j, data);
    var ys := xs[j := xs[j].(data := data)];
    assert xs[j - 1].offset <= xs[j].offset;
    forall i: nat ensures View(ys, i) == View(xs, i) {
      ViewBehind(xs, j - 1, j, xs[j].(data := data), i);
    }
  }

  /** What an entry holds where an earlier one covers it does not show. */
  lemma {:induction false} ViewBehind(xs: seq<Ext>, k: nat, j: nat, x: Ext, i: nat)
    requires k < j < |xs| && (xs[j].Covers(i) || x.Covers(i) ==> xs[k].Covers(i))
    ensures View(xs[j := x], i) == View(xs, i)
  {
    assert xs[j := x][1..] == xs[1..][j - 1 := x];
    if k > 0 {
      ViewBehind(xs[1..], k - 1, j - 1, x, i);
    } else if !xs[0].Covers(i) {
      ViewUpdate(xs, j, x, i);
    }
  }

  lemma TornCovered(xs: seq<Ext>, total: nat, j: nat, off: nat, torn: seq<byte>, nio: nat, len: nat)
    requires Tiled(xs, total) && Covered(xs, j, off)
    ensures Tiled(xs[j := Torn(xs[j], off, torn, nio)], total)
    ensures ChangedWithin(xs, xs[j := Torn(xs[j], off, torn, nio)], off, len)
  {
    assert torn == [] ==> Patch(xs[j].data, |xs[j].data|, torn) == xs[j].data;
    assert xs[j := xs[j]] == xs;
  }

  /** A new staging file, at entry `k`, with its share of what is to be written. */
  lemma CreateFits(xs: seq<Ext>, total: nat, j: nat, off: nat, buf: seq<byte>, disk: Disk)
    requires Tiled(xs, total) && Arrives(xs, j, off) && buf != [] && off + |buf| <= total
    requires j == |xs| || off < xs[j].offset || Full(xs[j], off)
    ensures RoundFits(xs, total, off, buf, RoundAt(xs, j, off, buf, disk)) && !RoundAt(xs, j, off, buf, disk).lost
  {
    var s := RoundAt(xs, j, off, buf, disk);
    var k := if j < |xs| && xs[j].offset <= off then j + 1 else j;
    if k == j + 1 {
      assert EntryTiled(xs, total, j);
    }
    assert Between(xs, k, off);
    hide Tiled, View, EntryTiled;
    Inserted(xs, total, k, off, if s.stop then [] else buf[..s.nio]);
  }

  lemma RoundRight(xs: seq<Ext>, total: nat, j: nat, off: nat, buf: seq<byte>, disk: Disk)
    requires Tiled(xs, total) && Arrives(xs, j, off) && buf != [] && off + |buf| <= total
    ensures var s := RoundAt(xs, j, off, buf, disk);
      && (!s.lost ==> RoundFits(xs, total, off, buf, s))
      && (s.lost <==> !s.stop && j < |xs| && xs[j].offset <= off && !Full(xs[j], off) && Wraps(xs, j, off))
      && (s.lost ==> Covered(xs, j, off) && Outside(s.xs, total))
  {
    hide Tiled, RoundFits, Wraps;
    if j == |xs| || off < xs[j].offset || Full(xs[j], off) {
      CreateFits(xs, total, j, off, buf, disk);
    } else if off <= xs[j].End() {
      ShareFits(xs, total, j, off, |buf|);
      EnterFits(xs, total, j, off, buf, disk);
    } else {
      CoveredFits(xs, total, j, off, buf, disk);
    }
  }

  /** Some staging file reaches into the next real file. */
  ghost predicate Outside(xs: seq<Ext>, total: nat) {
    exists j :: 0 <= j < |xs| && xs[j].staging && Limit(xs, total, j) < xs[j].End()
  }

  lemma MergeableUpdate(xs: seq<Ext>, j: nat, y: Ext, i: nat)
    requires j < |xs| && i != j && y.offset == xs[j].offset && y.staging == xs[j].staging
    ensures Mergeable(xs[j := y], i) == Mergeable(xs, i)
  {
  }

  /** A new staging file at `k` can be merged only if the prefix of the real file before it reaches it. */
  lemma MergeableWith(xs: seq<Ext>, k: nat, x: Ext, i: nat)
    requires 0 < k <= |xs| && x.staging && (!xs[k - 1].staging ==> xs[k - 1].End() < x.offset || |xs[k - 1].data| >= xs[k - 1].length)
    requires forall m :: 0 <= m < |xs| ==> !Mergeable(xs, m)
    ensures !Mergeable(With(xs, k, x), i)
  {
    if i < k - 1 { assert !Mergeable(xs, i); }
    else if k < i <= |xs| { assert !Mergeable(xs, i - 1); }
  }

  /** A round that makes something mergeable says so. */
  lemma RoundMerges(xs: seq<Ext>, j: nat, off: nat, buf: seq<byte>, disk: Disk)
    requires Arrives(xs, j, off) && buf != [] && forall i :: 0 <= i < |xs| ==> !Mergeable(xs, i)
    ensures var s := RoundAt(xs, j, off, buf, disk);
      !s.merge ==> forall i :: 0 <= i < |s.xs| ==> !Mergeable(s.xs, i)
  {
    hide Share, NewShare, Wraps, RoundAt, Mergeable, With, Put, Torn;
    var s := RoundAt(xs, j, off, buf, disk);
    if Creates(xs, j, off) {
      var k := if j < |xs| && xs[j].offset <= off then j + 1 else j;
      CreatedRound(xs, j, k, off, buf, disk);
      forall i | 0 <= i < |s.xs| ensures !Mergeable(s.xs, i) {
        MergeableWith(xs, k, Ext(off, 0, true, if s.stop then [] else buf[..s.nio]), i);
      }
    } else {
      EnteredRound(xs, j, off, buf, disk);
      forall i: nat | i < |s.xs| && i != j ensures !Mergeable(s.xs, i) {
        MergeableUpdate(xs, j, s.xs[j], i);
      }
      if s.stop { SameMergeable(xs, j, s.xs[j]); }
    }
  }

  lemma SameMergeable(xs: seq<Ext>, j: nat, y: Ext)
    requires j < |xs| && |y.data| == |xs[j].data| && y.(data := xs[j].data) == xs[j]
    ensures Mergeable(xs[j := y], j) == Mergeable(xs, j)
  {
  }

  /** A write of what is not staged, to a strict list, does not go astray, and leaves it strict unless it leaves a new
      staging file empty. */
  lemma RoundClear(xs: seq<Ext>, j: nat, off: nat, buf: seq<byte>, disk: Disk)
    requires Arrives(xs, j, off) && buf != [] && Clear(xs, off, |buf|)
    ensures var s := RoundAt(xs, j, off, buf, disk);
      && (s.lost ==> Wraps(xs, j, off) && Reaches(xs, j, off))
      && (!s.left ==> Strict(s.xs) && (!s.stop ==> Clear(s.xs, off + s.nio, |buf| - s.nio)))
  {
    hide Share, Wraps;
    var s := RoundAt(xs, j, off, buf, disk);
    assert j < |xs| ==> !Covered(xs, j, off);
    if j == |xs| || off < xs[j].offset {
      if !s.stop { ClearInserted(xs, j, off, |buf|, buf[..s.nio]); }
    } else {
      assert Reaches(xs, j, off);
      if s.stop {
        if |disk.torn| <= s.nio && off + |disk.torn| <= xs[j].End() {
          ClearStep(xs, j, off, |buf|, disk.torn);
        } else {
          assert xs[j := xs[j]] == xs;
        }
      } else {
        ClearStep(xs, j, off, |buf|, buf[..s.nio]);
      }
    }
  }

  /** From entry `j` on the write goes astray, or does so there. */
  ghost predicate Pending(xs: seq<Ext>, j: nat, off: nat, len: nat) {
    exists i: nat :: j <= i + 1 && WriteStrays(xs, i, off, len)
  }

  lemma LostPending(xs: seq<Ext>, j: nat, off: nat, len: nat)
    requires 0 < len && Covered(xs, j, off) && Wraps(xs, j, off)
    ensures Pending(xs, j, off, len)
  {
    assert WriteStrays(xs, j - 1, off, len);
  }

  /** What entry `j` gets ends by the start of any later real file. */
  lemma ShareEnds(xs: seq<Ext>, total: nat, j: nat, off: nat, len: nat, i: nat)
    requires Tiled(xs, total) && j < i < |xs| && !xs[i].staging && xs[j].offset <= off
    requires Reaches(xs, j, off) || (Covered(xs, j, off) && !Wraps(xs, j, off))
    ensures off + Share(xs, j, off, len) <= xs[i].offset
  {
    assert EntryTiled(xs, total, j);
    LimitBounds(xs, total, j, i);
    if xs[j].staging {
      assert xs[j + 1].offset <= xs[i].offset;
    }
    if Covered(xs, j, off) {
      assert EntryTiled(xs, total, j - 1);
      LimitBounds(xs, total, j - 1, i);
    }
  }

  lemma StraysEnter(xs: seq<Ext>, total: nat, j: nat, off: nat, buf: seq<byte>, disk: Disk, i: nat)
    requires Tiled(xs, total) && Arrives(xs, j, off) && buf != [] && off + |buf| <= total && j <= i + 1
    requires j < |xs| && xs[j].offset <= off && !Full(xs[j], off) && disk.good > 0 && !Wraps(xs, j, off)
    ensures var s := RoundAt(xs, j, off, buf, disk);
      && (WriteStrays(xs, i, off, |buf|) ==> s.nio < |buf| && j <= i)
      && (j <= i && s.nio < |buf| ==>
            (WriteStrays(xs, i, off, |buf|) <==> WriteStrays(s.xs, i, off + s.nio, |buf| - s.nio)))
  {
    var s := RoundAt(xs, j, off, buf, disk);
    if j < i < |xs| && !xs[i].staging {
      ShareEnds(xs, total, j, off, |buf|, i);
    }
    if !xs[j].staging {
      ShareFits(xs, total, j, off, |buf|);
    }
    hide Tiled;
  }

  lemma StraysCreate(xs: seq<Ext>, total: nat, j: nat, off: nat, buf: seq<byte>, disk: Disk, i: nat)
    requires Tiled(xs, total) && Arrives(xs, j, off) && buf != [] && off + |buf| <= total && j <= i + 1
    requires (j == |xs| || off < xs[j].offset || Full(xs[j], off)) && disk.good > 0
    ensures var s := RoundAt(xs, j, off, buf, disk);
      && (WriteStrays(xs, i, off, |buf|) ==> s.nio < |buf| && s.next <= i + 1)
      && !WriteStrays(s.xs, s.next - 1, off + s.nio, |buf| - s.nio)
      && (s.next <= i + 1 && s.nio < |buf| ==>
            (WriteStrays(xs, i, off, |buf|) <==> WriteStrays(s.xs, i + 1, off + s.nio, |buf| - s.nio)))
  {
    var s := RoundAt(xs, j, off, buf, disk);
    var k := if j < |xs| && xs[j].offset <= off then j + 1 else j;
    if k == j + 1 {
      assert EntryTiled(xs, total, j);
    }
    if k <= i < |xs| {
      assert xs[k].offset <= xs[i].offset;
    }
    hide Tiled;
  }

  lemma RoundNext(xs: seq<Ext>, j: nat, off: nat, buf: seq<byte>, disk: Disk)
    requires j <= |xs| && buf != [] && disk.good > 0 && !RoundAt(xs, j, off, buf, disk).lost
    ensures var s := RoundAt(xs, j, off, buf, disk);
      if Creates(xs, j, off) then j + 1 <= s.next <= j + 2
      else s.next == j + 1 && j < |xs| && xs[j].offset <= off && !Wraps(xs, j, off)
  {
  }

  lemma PendingAfter(xs: seq<Ext>, total: nat, j: nat, off: nat, buf: seq<byte>, disk: Disk)
    requires Tiled(xs, total) && j <= |xs| && Arrives(xs, j, off) && buf != [] && off + |buf| <= total && disk.good > 0
    requires !RoundAt(xs, j, off, buf, disk).lost && Pending(xs, j, off, |buf|)
    ensures var s := RoundAt(xs, j, off, buf, disk);
      s.nio < |buf| && Pending(s.xs, s.next, off + s.nio, |buf| - s.nio)
  {
    hide Tiled, WriteStrays, Arrives, RoundAt, Wraps, Full;
    RoundNext(xs, j, off, buf, disk);
    var s := RoundAt(xs, j, off, buf, disk);
    var i: nat :| j <= i + 1 && WriteStrays(xs, i, off, |buf|);
    if Creates(xs, j, off) {
      StraysCreate(xs, total, j, off, buf, disk, i);
      assert WriteStrays(s.xs, i + 1, off + s.nio, |buf| - s.nio);
    } else {
      StraysEnter(xs, total, j, off, buf, disk, i);
      assert WriteStrays(s.xs, i, off + s.nio, |buf| - s.nio);
    }
  }

  lemma PendingBefore(xs: seq<Ext>, total: nat, j: nat, off: nat, buf: seq<byte>, disk: Disk)
    requires Tiled(xs, total) && j <= |xs| && Arrives(xs, j, off) && buf != [] && off + |buf| <= total && disk.good > 0
    requires !RoundAt(xs, j, off, buf, disk).lost
    requires var s := RoundAt(xs, j, off, buf, disk);
      s.nio < |buf| && Pending(s.xs, s.next, off + s.nio, |buf| - s.nio)
    ensures Pending(xs, j, off, |buf|)
  {
    hide Tiled, WriteStrays, Arrives, RoundAt, Wraps, Full;
    RoundNext(xs, j, off, buf, disk);
    var s := RoundAt(xs, j, off, buf, disk);
    var end, len := off + s.nio, |buf| - s.nio;
    var i: nat :| s.next <= i + 1 && WriteStrays(s.xs, i, end, len);
    if Creates(xs, j, off) {
      StraysCreate(xs, total, j, off, buf, disk, if i > s.next - 1 then i - 1 else i);
      assert WriteStrays(xs, i - 1, off, |buf|);
    } else {
      StraysEnter(xs, total, j, off, buf, disk, i);
      assert WriteStrays(xs, i, off, |buf|);
    }
  }

  /** What a write promises: right unless lost, and lost just when it goes astray before the disk fails. */
  ghost predicate WriteFits(xs: seq<Ext>, total: nat, off: nat, buf: seq<byte>, r: Done) {
    && (r.left ==> !r.ok)
    && if r.lost then r.ok && Outside(r.xs, total)
       else Tiled(r.xs, total) && if r.ok then ViewWritten(xs, r.xs, off, buf) else ChangedWithin(xs, r.xs, off, |buf|)
  }

  lemma WrittenMore(xs: seq<Ext>, ys: seq<Ext>, zs: seq<Ext>, off: nat, buf: seq<byte>, nio: nat)
    requires nio <= |buf| && ViewWritten(xs, ys, off, buf[..nio]) && ViewWritten(ys, zs, off + nio, buf[nio..])
    ensures ViewWritten(xs, zs, off, buf)
  {
    WrittenTwice(xs, ys, zs, off, buf[..nio], buf[nio..]);
    assert buf[..nio] + buf[nio..] == buf;
  }

  lemma ChangedMore(xs: seq<Ext>, ys: seq<Ext>, zs: seq<Ext>, off: nat, buf: seq<byte>, nio: nat)
    requires nio <= |buf| && ViewWritten(xs, ys, off, buf[..nio]) && ChangedWithin(ys, zs, off + nio, |buf| - nio)
    ensures ChangedWithin(xs, zs, off, |buf|)
  {
  }

  lemma {:induction false} WriteFromRight(xs: seq<Ext>, total: nat, j: nat, off: nat, buf: seq<byte>, disk: Disk)
    requires Tiled(xs, total) && j <= |xs| && Arrives(xs, j, off) && buf != [] && off + |buf| <= total
    ensures var r := WriteFrom(xs, j, off, buf, disk);
      && WriteFits(xs, total, off, buf, r)
      && (r.lost ==> Pending(xs, j, off, |buf|)) && (r.ok && !r.lost ==> !Pending(xs, j, off, |buf|))
    decreases |buf|, |xs| - j
  {
    hide Tiled, Arrives, RoundAt, Wraps, Full, Covered, View, ViewWritten, ChangedWithin, Outside, Pending;
    var s := RoundAt(xs, j, off, buf, disk);
    RoundRight(xs, total, j, off, buf, disk);
    GoesOn(xs, j, off, buf, disk);
    if s.lost {
      LostPending(xs, j, off, |buf|);
    } else if !s.stop {
      if Pending(xs, j, off, |buf|) { PendingAfter(xs, total, j, off, buf, disk); }
      if s.nio < |buf| {
        var more := disk.(good := disk.good - 1);
        WriteFromRight(s.xs, total, s.next, off + s.nio, buf[s.nio..], more);
        var r := WriteFrom(s.xs, s.next, off + s.nio, buf[s.nio..], more);
        if Pending(s.xs, s.next, off + s.nio, |buf| - s.nio) { PendingBefore(xs, total, j, off, buf, disk); }
        if r.ok && !r.lost { WrittenMore(xs, s.xs, r.xs, off, buf, s.nio); }
        if !r.ok { ChangedMore(xs, s.xs, r.xs, off, buf, s.nio); }
      } else {
        assert buf[..s.nio] == buf;
      }
    }
  }

  lemma GoesOn(xs: seq<Ext>, j: nat, off: nat, buf: seq<byte>, disk: Disk)
    requires j <= |xs| && buf != []
    ensures var s := RoundAt(xs, j, off, buf, disk);
      (s.stop <==> disk.good == 0) && (s.left ==> s.stop) && (s.lost ==> !s.stop) && (s.stop ==> !s.merge)
  {
  }

  lemma {:induction false} WriteFromClear(xs: seq<Ext>, total: nat, j: nat, off: nat, buf: seq<byte>, disk: Disk)
    requires Tiled(xs, total) && j <= |xs| && Arrives(xs, j, off) && buf != [] && off + |buf| <= total
    requires Clear(xs, off, |buf|)
    ensures var r := WriteFrom(xs, j, off, buf, disk); !r.lost && (!r.left ==> Strict(r.xs))
    decreases |buf|, |xs| - j
  {
    hide Tiled, Arrives, RoundAt, Wraps, Full, Covered, View, ViewWritten, ChangedWithin, Outside, Clear, Strict, Reaches;
    var s := RoundAt(xs, j, off, buf, disk);
    RoundRight(xs, total, j, off, buf, disk);
    RoundClear(xs, j, off, buf, disk);
    GoesOn(xs, j, off, buf, disk);
    if s.lost {
      ShareFits(xs, total, j, off, |buf|);
    } else if !s.stop && s.nio < |buf| {
      WriteFromClear(s.xs, total, s.next, off + s.nio, buf[s.nio..], disk.(good := disk.good - 1));
    }
  }

  lemma {:induction false} WriteFromMerges(xs: seq<Ext>, total: nat, j: nat, off: nat, buf: seq<byte>, disk: Disk)
    requires Tiled(xs, total) && j <= |xs| && Arrives(xs, j, off) && buf != [] && off + |buf| <= total
    requires forall i :: 0 <= i < |xs| ==> !Mergeable(xs, i)
    ensures var r := WriteFrom(xs, j, off, buf, disk);
      !r.lost && !r.merge ==> forall i :: 0 <= i < |r.xs| ==> !Mergeable(r.xs, i)
    decreases |buf|, |xs| - j
  {
    hide Tiled, Arrives, RoundAt, Wraps, Full, Covered, View, ViewWritten, ChangedWithin, Outside, Mergeable;
    var s := RoundAt(xs, j, off, buf, disk);
    RoundRight(xs, total, j, off, buf, disk);
    RoundMerges(xs, j, off, buf, disk);
    GoesOn(xs, j, off, buf, disk);
    if !s.lost && !s.stop && s.nio < |buf| && !s.merge {
      WriteFromMerges(s.xs, total, s.next, off + s.nio, buf[s.nio..], disk.(good := disk.good - 1));
    }
  }

  /** Every write within range: it goes astray exactly if some real file is in its way like that, and until the disk fails;
      otherwise what is shown is as it should be. Bytes that are not staged go right in a strict list. */
  lemma WriteRight(xs: seq<Ext>, total: nat, off: nat, buf: seq<byte>, disk: Disk)
    requires Tiled(xs, total) && off + |buf| <= total
    ensures var r := WriteAt(xs, off, buf, disk);
      && WriteFits(xs, total, off, buf, r)
      && (r.lost ==> exists i: nat :: WriteStrays(xs, i, off, |buf|))
      && (r.ok && !r.lost ==> forall i: nat :: !WriteStrays(xs, i, off, |buf|))
  {
    if buf == [] {
      forall i: nat | i < |xs| && !xs[i].staging ensures xs[i].End() <= xs[i].offset + xs[i].length {
        assert EntryTiled(xs, total, i);
      }
    } else {
      SeekFirst(xs, total, off);
      hide Tiled, Arrives, WriteFits, WriteStrays;
      var j := Seek(xs, 0, off);
      WriteFromRight(xs, total, j, off, buf, disk);
      forall i: nat | WriteStrays(xs, i, off, |buf|) ensures Pending(xs, j, off, |buf|) {
        StraysLater(xs, i, off, |buf|);
      }
    }
  }

  lemma SeekFirst(xs: seq<Ext>, total: nat, off: nat)
    requires Tiled(xs, total) && off < total
    ensures Arrives(xs, Seek(xs, 0, off), off)
    ensures forall k :: 0 <= k < Seek(xs, 0, off) && !xs[k].staging ==> xs[k].End() < off
  {
    SeekArrives(xs, total, 0, off);
  }

  lemma StraysLater(xs: seq<Ext>, i: nat, off: nat, len: nat)
    requires WriteStrays(xs, i, off, len)
    requires forall k :: 0 <= k < Seek(xs, 0, off) && !xs[k].staging ==> xs[k].End() < off
    ensures Seek(xs, 0, off) <= i
  {
  }

  lemma WriteClear(xs: seq<Ext>, total: nat, off: nat, buf: seq<byte>, disk: Disk)
    requires Tiled(xs, total) && off + |buf| <= total && Clear(xs, off, |buf|)
    ensures var r := WriteAt(xs, off, buf, disk); !r.lost && (!r.left ==> Strict(r.xs))
  {
    if buf != [] {
      SeekFirst(xs, total, off);
      WriteFromClear(xs, total, Seek(xs, 0, off), off, buf, disk);
    }
  }

  lemma WriteMerges(xs: seq<Ext>, total: nat, off: nat, buf: seq<byte>, disk: Disk)
    requires Tiled(xs, total) && off + |buf| <= total && forall i :: 0 <= i < |xs| ==> !Mergeable(xs, i)
    ensures var r := WriteAt(xs, off, buf, disk);
      !r.lost && !r.merge ==> forall i :: 0 <= i < |r.xs| ==> !Mergeable(r.xs, i)
  {
    if buf != [] {
      SeekFirst(xs, total, off);
      WriteFromMerges(xs, total, Seek(xs, 0, off), off, buf, disk);
    }
  }
}
