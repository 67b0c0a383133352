/** Whole runs of the file store: any writes, reads and merges, with disk failures anywhere (btfiles.cpp). */
module FileRuns {
  import opened Bytes
  import opened FileLayout
  import opened FileMerges
  import opened FileReads
  import opened FileStore
  import opened FileWrites
  import opened Options

  datatype Op =
    | Write(off: nat, buf: seq<byte>, disk: Disk)
    | Read(off: nat, len: nat)
    | Merge(findall: bool, dostaging: bool, good: nat)

  /** Wrote: `left` tells that an empty staging file is left behind. Astray: the write has put bytes where they do not
      belong. Got: `strayed` tells that the data are not what was read. Omitted: a read of bytes that have not all been
      saved. */
  datatype Outcome =
    | Wrote(ok: bool, left: bool)
    | Astray
    | Got(data: Option<seq<byte>>, strayed: bool)
    | Merged(merged: bool, failed: bool)
    | Omitted

  /** One place of the flat array. Torn: the last write there failed. */
  datatype Cell = Never | Torn | Is(b: byte)

  predicate Writes(op: Op, out: Outcome, total: nat, i: nat) {
    op.Write? && out.Wrote? && op.off + |op.buf| <= total && op.off <= i < op.off + |op.buf|
  }

  /** What place `i` holds after the first steps, whose outcomes are `outs`: the byte of the last write there. */
  function CellAt(ops: seq<Op>, outs: seq<Outcome>, total: nat, i: nat): Cell
    requires |outs| <= |ops|
    decreases |outs|
  {
    if outs == [] then Never
    else
      var n := |outs| - 1;
      if Writes(ops[n], outs[n], total, i) then
        if outs[n].ok then Is(ops[n].buf[i - ops[n].off]) else Torn
      else CellAt(ops, outs[..n], total, i)
  }

  predicate Known(ops: seq<Op>, outs: seq<Outcome>, total: nat, off: nat, len: nat)
    requires |outs| <= |ops|
  {
    forall i: nat | off <= i < off + len :: CellAt(ops, outs, total, i).Is?
  }

  /** The files show the flat array: the bytes saved, and nothing where nothing was written. */
  ghost predicate Agrees(xs: seq<Ext>, ops: seq<Op>, outs: seq<Outcome>, total: nat)
    requires |outs| <= |ops|
  {
    forall i: nat ::
      match CellAt(ops, outs, total, i)
      case Never => View(xs, i) == None
      case Torn => true
      case Is(b) => View(xs, i) == Some(b)
  }

  ghost predicate DataFits(ops: seq<Op>, outs: seq<Outcome>, total: nat, off: nat, data: seq<byte>)
    requires |outs| <= |ops|
  {
    forall i: nat :: off <= i < off + |data| ==> CellAt(ops, outs, total, i) == Is(data[i - off])
  }

  /** A write turns `xs` into `ys`: what the loop makes of them, astray only past two staging files as WriteStrays says, and
      not astray when all goes well and there are none such. */
  ghost predicate WroteFits(xs: seq<Ext>, ys: seq<Ext>, total: nat, off: nat, buf: seq<byte>, disk: Disk, out: Outcome) {
    if off + |buf| > total then out == Wrote(false, false) && ys == xs
    else
      var r := WriteAt(xs, off, buf, disk);
      && ys == r.xs
      && out == (if r.lost then Astray else Wrote(r.ok, r.left))
      && (out.Astray? ==> exists i: nat :: WriteStrays(xs, i, off, |buf|))
      && (out.Wrote? && out.ok ==> forall i: nat :: !WriteStrays(xs, i, off, |buf|))
  }

  /** A read of saved bytes returns them, but for exactly those that stray. */
  ghost predicate GotFits(xs: seq<Ext>, ops: seq<Op>, outs: seq<Outcome>, total: nat, off: nat, len: nat, out: Outcome)
    requires |outs| <= |ops|
  {
    if off + len > total then out == Got(None, false)
    else if Known(ops, outs, total, off, len) then
      && out.Got? && out.data.Some? && |out.data.value| == len
      && (out.strayed <==> exists i: nat :: Strays(xs, i, off, len))
      && (!out.strayed ==> DataFits(ops, outs, total, off, out.data.value))
    else out == Omitted
  }

  /** Merging does what it says and changes nothing that is shown. It fails only on a disk on which fewer writes go well
      than it takes to copy all that is staged; otherwise something is merged if anything can be, and nothing is left to
      merge if everything is to be. */
  ghost predicate MergeFits(xs: seq<Ext>, ys: seq<Ext>, findall: bool, good: nat, out: Outcome) {
    && SameView(xs, ys) && (Strict(xs) ==> Strict(ys)) && out.Merged?
    && (var r := Merges(xs, findall, good); ys == r.xs && out.merged == r.merged && out.failed == r.failed)
    && (out.failed ==> good < StagedPortions(xs))
    && (!out.failed ==> (out.merged <==> exists i :: 0 <= i < |xs| && Mergeable(xs, i)))
    && (!out.failed && findall ==> forall i :: 0 <= i < |ys| ==> !Mergeable(ys, i))
  }

  /** Step `k`, from `xs` to `ys`: the files were laid out right and showed the flat array, and the step did what it
      should. */
  ghost predicate StepFits(ops: seq<Op>, outs: seq<Outcome>, xs: seq<Ext>, ys: seq<Ext>, total: nat, k: nat)
    requires k < |outs| <= |ops|
  {
    && Tiled(xs, total) && Agrees(xs, ops, outs[..k], total)
    && match ops[k]
       case Write(off, buf, disk) => WroteFits(xs, ys, total, off, buf, disk, outs[k])
       case Read(off, len) => ys == xs && GotFits(xs, ops, outs[..k], total, off, len, outs[k])
       case Merge(findall, _, good) => MergeFits(xs, ys, findall, good, outs[k])
  }

  /** The first steps of a run from empty files on, with what the files hold before and after each. */
  ghost predicate Steps(lengths: seq<nat>, ops: seq<Op>, outs: seq<Outcome>, trace: seq<seq<Ext>>) {
    && |outs| <= |ops| && |trace| == |outs| + 1 && trace[0] == Fresh(lengths, 0)
    && (forall k :: 0 <= k < |outs| ==> StepFits(ops, outs, trace[k], trace[k + 1], Sum(lengths), k))
  }

  /** A run goes on until a write goes astray. */
  ghost predicate RunFits(lengths: seq<nat>, ops: seq<Op>, outs: seq<Outcome>, trace: seq<seq<Ext>>) {
    && Steps(lengths, ops, outs, trace)
    && (forall k :: 0 <= k < |outs| && outs[k].Astray? ==> k == |outs| - 1)
    && (|outs| < |ops| ==> outs != [] && outs[|outs| - 1].Astray?)
  }

  lemma CellOther(ops: seq<Op>, outs: seq<Outcome>, out: Outcome, total: nat, i: nat)
    requires |outs| < |ops| && !Writes(ops[|outs|], out, total, i)
    ensures CellAt(ops, outs + [out], total, i) == CellAt(ops, outs, total, i)
  {
    assert (outs + [out])[..|outs|] == outs;
  }

  lemma AgreesOther(xs: seq<Ext>, ys: seq<Ext>, ops: seq<Op>, outs: seq<Outcome>, out: Outcome, total: nat)
    requires |outs| < |ops| && Agrees(xs, ops, outs, total) && SameView(xs, ys)
    requires forall i: nat :: !Writes(ops[|outs|], out, total, i)
    ensures Agrees(ys, ops, outs + [out], total)
  {
    forall i: nat ensures CellAt(ops, outs + [out], total, i) == CellAt(ops, outs, total, i) {
      CellOther(ops, outs, out, total, i);
    }
  }

  lemma AgreesWritten(xs: seq<Ext>, ys: seq<Ext>, ops: seq<Op>, outs: seq<Outcome>, out: Outcome, total: nat)
    requires |outs| < |ops| && ops[|outs|].Write? && out.Wrote? && Agrees(xs, ops, outs, total)
    requires var op := ops[|outs|];
      && op.off + |op.buf| <= total
      && if out.ok then ViewWritten(xs, ys, op.off, op.buf) else ChangedWithin(xs, ys, op.off, |op.buf|)
    ensures Agrees(ys, ops, outs + [out], total)
  {
    var op := ops[|outs|];
    forall i: nat ensures
      match CellAt(ops, outs + [out], total, i)
      case Never => View(ys, i) == None
      case Torn => true
      case Is(b) => View(ys, i) == Some(b)
    {
      if !Writes(op, out, total, i) { CellOther(ops, outs, out, total, i); }
    }
  }

  lemma KnownPresent(xs: seq<Ext>, ops: seq<Op>, outs: seq<Outcome>, total: nat, off: nat, len: nat)
    requires |outs| <= |ops| && Agrees(xs, ops, outs, total) && Known(ops, outs, total, off, len)
    ensures Present(xs, off, len)
  {
    forall i: nat | off <= i < off + len ensures View(xs, i).Some? {
      assert CellAt(ops, outs, total, i).Is?;
    }
  }

  lemma ReadFits(xs: seq<Ext>, ops: seq<Op>, outs: seq<Outcome>, total: nat, off: nat, data: seq<byte>)
    requires |outs| <= |ops| && Agrees(xs, ops, outs, total) && Known(ops, outs, total, off, |data|) && Shows(xs, off, data)
    ensures DataFits(ops, outs, total, off, data)
  {
    forall i: nat | off <= i < off + |data| ensures CellAt(ops, outs, total, i) == Is(data[i - off]) {
      assert CellAt(ops, outs, total, i).Is?;
    }
  }

  /** A read of bytes that have been saved; out of range it fails. */
  method DoRead(f: Files, ghost ops: seq<Op>, ghost outs: seq<Outcome>, off: nat, len: nat) returns (out: Outcome)
    requires f.Valid() && |outs| <= |ops| && Agrees(f.xs, ops, outs, f.total)
    requires off + len <= f.total ==> Known(ops, outs, f.total, off, len)
    ensures GotFits(f.xs, ops, outs, f.total, off, len, out) && out.Got?
  {
    hide f.Valid, Tiled, View, Known, CellAt, Agrees, DataFits, ReadAt, Strays, Present, Shows;
    f.TiledFacts();
    if off + len <= f.total {
      KnownPresent(f.xs, ops, outs, f.total, off, len);
      ReadExact(f.xs, f.total, off, len);
    }
    var data, strayed := f.Read(off, len);
    if data.Some? && !strayed { ReadFits(f.xs, ops, outs, f.total, off, data.value); }
    return Got(data, strayed);
  }

  method DoWrite(f: Files, ghost ops: seq<Op>, ghost outs: seq<Outcome>, off: nat, buf: seq<byte>, disk: Disk)
    returns (out: Outcome)
    requires f.Valid() && |outs| < |ops| && Agrees(f.xs, ops, outs, f.total) && ops[|outs|] == Write(off, buf, disk)
    modifies f`needMerge, f`list, f`xs, f.list`next, f.list`data
    ensures WroteFits(old(f.xs), f.xs, f.total, off, buf, disk, out)
    ensures out.Astray? || (out.Wrote? && f.Valid() && Agrees(f.xs, ops, outs + [out], f.total))
    ensures forall i :: 0 <= i < |f.list| ==> f.list[i] in old(f.list) || fresh(f.list[i])
  {
    hide f.Valid, Tiled, View, CellAt, ViewWritten, ChangedWithin, Agrees, WriteAt, WriteStrays, Outside;
    f.TiledFacts();
    ghost var xs := f.xs;
    if off + |buf| <= f.total { WriteRight(xs, f.total, off, buf, disk); }
    var ok, left, lost := f.Write(off, buf, disk);
    if lost { return Astray; }
    out := Wrote(ok, left);
    if off + |buf| <= f.total {
      AgreesWritten(xs, f.xs, ops, outs, out, f.total);
    } else {
      Stays(xs);
      AgreesOther(xs, f.xs, ops, outs, out, f.total);
    }
  }

  lemma Stays(xs: seq<Ext>)
    ensures SameView(xs, xs)
  {
  }

  /** One step of a run. */
  method Do(f: Files, ghost ops: seq<Op>, ghost outs: seq<Outcome>, op: Op, known: bool) returns (out: Outcome)
    requires f.Valid() && |outs| < |ops| && op == ops[|outs|] && Agrees(f.xs, ops, outs, f.total)
    requires known <==> op.Read? && Known(ops, outs, f.total, op.off, op.len)
    modifies f`needMerge, f`list, f`xs, f.list`next, f.list`data
    ensures StepFits(ops, outs + [out], old(f.xs), f.xs, f.total, |outs|)
    ensures out.Astray? || (f.Valid() && Agrees(f.xs, ops, outs + [out], f.total))
    ensures forall i :: 0 <= i < |f.list| ==> f.list[i] in old(f.list) || fresh(f.list[i])
  {
    hide f.Valid, Tiled, View, Strict, Known, CellAt, DataFits, Agrees, GotFits, WroteFits, SameView;
    f.TiledFacts();
    ghost var xs := f.xs;
    match op {
      case Read(off, len) =>
        if off + len <= f.total && !known {
          out := Omitted;
          NotKnown(xs, ops, outs, f.total, off, len);
        } else {
          out := DoRead(f, ops, outs, off, len);
        }
        Stays(xs);
        AgreesOther(f.xs, f.xs, ops, outs, out, f.total);
      case Merge(findall, dostaging, good) =>
        var merged, failed := f.FindAndMerge(findall, dostaging, good);
        out := Merged(merged, failed);
        MergeDoes(xs, f.xs, findall, good, out);
        AgreesOther(xs, f.xs, ops, outs, out, f.total);
      case Write(off, buf, disk) =>
        out := DoWrite(f, ops, outs, off, buf, disk);
    }
    assert (outs + [out])[..|outs|] == outs;
  }

  lemma MergeDoes(xs: seq<Ext>, ys: seq<Ext>, findall: bool, good: nat, out: Outcome)
    ensures MergeFits(xs, ys, findall, good, out) ==> SameView(xs, ys)
  {
  }

  lemma NotKnown(xs: seq<Ext>, ops: seq<Op>, outs: seq<Outcome>, total: nat, off: nat, len: nat)
    requires |outs| <= |ops| && off + len <= total && !Known(ops, outs, total, off, len)
    ensures GotFits(xs, ops, outs, total, off, len, Omitted)
  {
    hide Known;
  }

  lemma StepMore(ops: seq<Op>, outs: seq<Outcome>, out: Outcome, xs: seq<Ext>, ys: seq<Ext>, total: nat, k: nat)
    requires k < |outs| < |ops| && StepFits(ops, outs, xs, ys, total, k)
    ensures StepFits(ops, outs + [out], xs, ys, total, k)
  {
    hide Tiled, Agrees, GotFits, WroteFits, SameView, Strict;
    assert (outs + [out])[..k] == outs[..k];
  }

  lemma StepsMore(lengths: seq<nat>, ops: seq<Op>, outs: seq<Outcome>, out: Outcome, trace: seq<seq<Ext>>, ys: seq<Ext>)
    requires Steps(lengths, ops, outs, trace) && |outs| < |ops|
    requires StepFits(ops, outs + [out], trace[|outs|], ys, Sum(lengths), |outs|)
    ensures Steps(lengths, ops, outs + [out], trace + [ys])
  {
    hide StepFits, Fresh, Sum;
    var outs', trace' := outs + [out], trace + [ys];
    forall k | 0 <= k < |outs'| ensures StepFits(ops, outs', trace'[k], trace'[k + 1], Sum(lengths), k) {
      if k < |outs| { StepMore(ops, outs, out, trace[k], trace[k + 1], Sum(lengths), k); }
    }
  }

  /** Any run from empty files on: up to a write that goes astray the files show what the writes have saved, and after
      every other step too; reads return just that, but for those that stray; merges change nothing. */
  method Run(lengths: seq<nat>, ops: seq<Op>) returns (f: Files, outs: seq<Outcome>, ghost trace: seq<seq<Ext>>)
    requires lengths != []
    ensures f.total == Sum(lengths) && RunFits(lengths, ops, outs, trace) && f.xs == trace[|outs|]
    ensures (forall k :: 0 <= k < |outs| ==> !outs[k].Astray?) ==> f.Valid() && Agrees(f.xs, ops, outs, f.total)
  {
    f := new Files(lengths);
    outs, trace := [], [f.xs];
    assert Agrees(f.xs, ops, outs, f.total);
    hide f.Valid, Known, CellAt, Agrees, StepFits, Fresh, Sum, Steps;
    assert Steps(lengths, ops, outs, trace) by { Begin(lengths, ops, f.xs); }
    for n := 0 to |ops|
      invariant |outs| == n && |trace| == n + 1 && f.total == Sum(lengths) && f.xs == trace[n]
      invariant fresh(f) && forall i :: 0 <= i < |f.list| ==> fresh(f.list[i])
      invariant f.Valid() && Agrees(f.xs, ops, outs, f.total)
      invariant Steps(lengths, ops, outs, trace) && forall k :: 0 <= k < n ==> !outs[k].Astray?
    {
      var known := ops[n].Read? && Known(ops, outs, f.total, ops[n].off, ops[n].len);
      var out := Do(f, ops, outs, ops[n], known);
      StepsMore(lengths, ops, outs, out, trace, f.xs);
      outs, trace := outs + [out], trace + [f.xs];
      if out.Astray? { return; }
    }
  }

  lemma Begin(lengths: seq<nat>, ops: seq<Op>, xs: seq<Ext>)
    requires xs == Fresh(lengths, 0)
    ensures Steps(lengths, ops, [], [xs])
  {
  }

  /** Step `k` is no write of staged bytes, and leaves no empty staging file behind. */
  ghost predicate Calm(ops: seq<Op>, outs: seq<Outcome>, xs: seq<Ext>, total: nat, k: nat)
    requires k < |outs| <= |ops|
  {
    ops[k].Write? && ops[k].off + |ops[k].buf| <= total ==>
      Unstaged(xs, ops[k].off, |ops[k].buf|) && (outs[k].Wrote? ==> !outs[k].left)
  }

  lemma FreshStrict(lengths: seq<nat>)
    ensures Strict(Fresh(lengths, 0))
  {
    var xs := Fresh(lengths, 0);
    forall i | 0 <= i < |xs| ensures !xs[i].staging { FreshAt(lengths, 0, i); }
  }

  lemma CalmStep(ops: seq<Op>, outs: seq<Outcome>, xs: seq<Ext>, ys: seq<Ext>, total: nat, k: nat)
    requires k < |outs| <= |ops| && StepFits(ops, outs, xs, ys, total, k) && Calm(ops, outs, xs, total, k) && Strict(xs)
    ensures Strict(ys) && !outs[k].Astray? && (outs[k].Got? ==> !outs[k].strayed)
  {
    hide Tiled, Agrees, Strict, Known, DataFits, SameView, Unstaged, WriteAt, WriteStrays;
    match ops[k] {
      case Write(off, buf, disk) =>
        if off + |buf| <= total { WriteClear(xs, total, off, buf, disk); }
      case Read(off, len) =>
        if off + len <= total && Known(ops, outs[..k], total, off, len) {
          KnownPresent(xs, ops, outs[..k], total, off, len);
          StrictReads(xs, total, off, len);
          ReadExact(xs, total, off, len);
        }
      case Merge(_, _, _) =>
    }
  }

  lemma {:induction false} CalmTo(lengths: seq<nat>, ops: seq<Op>, outs: seq<Outcome>, trace: seq<seq<Ext>>, n: nat)
    requires RunFits(lengths, ops, outs, trace) && n <= |outs|
    requires forall k :: 0 <= k < n ==> Calm(ops, outs, trace[k], Sum(lengths), k)
    ensures Strict(trace[n])
    ensures forall k :: 0 <= k < n ==> !outs[k].Astray? && (outs[k].Got? ==> !outs[k].strayed)
  {
    hide StepFits, Calm, Strict, Fresh, Sum;
    if n == 0 {
      FreshStrict(lengths);
    } else {
      CalmTo(lengths, ops, outs, trace, n - 1);
      CalmStep(ops, outs, trace[n - 1], trace[n], Sum(lengths), n - 1);
    }
  }

  /** As long as no write meets staged bytes and no new staging file is left empty, nothing goes wrong: the run gets to its
      end and every read of saved bytes returns them. */
  lemma CalmRun(lengths: seq<nat>, ops: seq<Op>, outs: seq<Outcome>, trace: seq<seq<Ext>>)
    requires RunFits(lengths, ops, outs, trace)
    requires forall k :: 0 <= k < |outs| ==> Calm(ops, outs, trace[k], Sum(lengths), k)
    ensures |outs| == |ops| && forall k :: 0 <= k < |outs| ==> !outs[k].Astray? && (outs[k].Got? ==> !outs[k].strayed)
  {
    hide StepFits, Calm, Fresh, Sum;
    CalmTo(lengths, ops, outs, trace, |outs|);
  }

  /** No two writes have a place in common. */
  ghost predicate Apart(ops: seq<Op>) {
    forall j, k :: 0 <= j < k < |ops| && ops[j].Write? && ops[k].Write? ==>
      ops[j].off + |ops[j].buf| <= ops[k].off || ops[k].off + |ops[k].buf| <= ops[j].off
  }

  lemma {:induction false} TouchedBefore(ops: seq<Op>, outs: seq<Outcome>, total: nat, i: nat) returns (k: nat)
    requires |outs| <= |ops| && CellAt(ops, outs, total, i) != Never
    ensures k < |outs| && Writes(ops[k], outs[k], total, i)
    decreases |outs|
  {
    k := |outs| - 1;
    if !Writes(ops[k], outs[k], total, i) { k := TouchedBefore(ops, outs[..k], total, i); }
  }

  /** Staged bytes have been written before. */
  lemma ApartUnstaged(xs: seq<Ext>, ops: seq<Op>, outs: seq<Outcome>, total: nat, k: nat)
    requires k < |outs| <= |ops| && Agrees(xs, ops, outs[..k], total) && Strict(xs) && Apart(ops) && ops[k].Write?
    ensures Unstaged(xs, ops[k].off, |ops[k].buf|)
  {
    var off, len := ops[k].off, |ops[k].buf|;
    forall j | 0 <= j < |xs| && xs[j].staging && 0 < len ensures off + len <= xs[j].offset || xs[j].End() <= off {
      var i := if off <= xs[j].offset then xs[j].offset else off;
      assert 0 < |xs[j].data|;
      if xs[j].Covers(i) && i < off + len {
        ViewNone(xs, i);
        assert View(xs, i).Some?;
        var m := TouchedBefore(ops, outs[..k], total, i);
      }
    }
  }

  lemma {:induction false} ApartTo(lengths: seq<nat>, ops: seq<Op>, outs: seq<Outcome>, trace: seq<seq<Ext>>, n: nat)
    requires RunFits(lengths, ops, outs, trace) && Apart(ops) && n <= |outs|
    requires forall k :: 0 <= k < |outs| && outs[k].Wrote? ==> !outs[k].left
    ensures forall k :: 0 <= k < n ==> Calm(ops, outs, trace[k], Sum(lengths), k)
  {
    hide Agrees, Strict, GotFits, WroteFits, SameView, Unstaged, Tiled, Apart, Fresh, Sum;
    if n > 0 {
      ApartTo(lengths, ops, outs, trace, n - 1);
      CalmTo(lengths, ops, outs, trace, n - 1);
      assert StepFits(ops, outs, trace[n - 1], trace[n], Sum(lengths), n - 1);
      if ops[n - 1].Write? { ApartUnstaged(trace[n - 1], ops, outs, Sum(lengths), n - 1); }
    }
  }

  /** Writes that have no byte in common go through to the disk, and every read of saved bytes returns them, as long as no
      new staging file is left empty. */
  lemma ApartRun(lengths: seq<nat>, ops: seq<Op>, outs: seq<Outcome>, trace: seq<seq<Ext>>)
    requires RunFits(lengths, ops, outs, trace) && Apart(ops)
    requires forall k :: 0 <= k < |outs| && outs[k].Wrote? ==> !outs[k].left
    ensures |outs| == |ops| && forall k :: 0 <= k < |ops| ==> Smooth(ops[k], outs[k])
  {
    hide StepFits, Apart, Calm, Fresh, Sum;
    ApartTo(lengths, ops, outs, trace, |outs|);
    CalmRun(lengths, ops, outs, trace);
    forall k | 0 <= k < |ops| ensures Smooth(ops[k], outs[k]) {
      StepSmooth(ops, outs, trace[k], trace[k + 1], Sum(lengths), k);
    }
  }

  ghost predicate Smooth(op: Op, out: Outcome) {
    match op
    case Write(_, _, _) => out.Wrote?
    case Read(_, _) => out.Omitted? || (out.Got? && !out.strayed)
    case Merge(_, _, _) => out.Merged?
  }

  lemma StepSmooth(ops: seq<Op>, outs: seq<Outcome>, xs: seq<Ext>, ys: seq<Ext>, total: nat, k: nat)
    requires k < |outs| <= |ops| && StepFits(ops, outs, xs, ys, total, k)
    requires !outs[k].Astray? && (outs[k].Got? ==> !outs[k].strayed)
    ensures Smooth(ops[k], outs[k])
  {
    hide Tiled, Agrees, Known, SameView, Strict;
  }
}
