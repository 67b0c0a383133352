/** Runs of the file store in which something goes wrong (btfiles.cpp, IO). */
module FileExamples {
  import opened Bytes
  import opened FileLayout
  import opened FileReads
  import opened FileRuns
  import opened FileStore
  import opened FileWrites

  const GOOD := Disk(9, [])
  const FULL := Disk(0, [])

  /** A write that is over after one round. */
  lemma OneRound(xs: seq<Ext>, j: nat, off: nat, buf: seq<byte>, disk: Disk, s: Round)
    requires buf != [] && Seek(xs, 0, off) == j && RoundAt(xs, j, off, buf, disk) == s && (s.stop || s.nio == |buf|)
    ensures WriteAt(xs, off, buf, disk) ==
      if s.stop then Done(s.xs, false, false, s.left, false) else Done(s.xs, s.merge, true, false, s.lost)
  {
    hide RoundAt, Seek;
  }

  function Real(off: nat, length: nat, data: seq<byte>): Ext {
    Ext(off, length, false, data)
  }

  function Staged(off: nat, data: seq<byte>): Ext {
    Ext(off, 0, true, data)
  }

  lemma PutFirst(x: Ext, part: seq<byte>)
    requires x.data == []
    ensures Put(x, x.offset, part) == x.(data := part)
  {
  }

  lemma FillSecond(e: byte)
    ensures Fresh([4, 1], 0) == [Real(0, 4, []), Real(4, 1, [])]
    ensures WriteAt([Real(0, 4, []), Real(4, 1, [])], 4, [e], GOOD) ==
      Done([Real(0, 4, []), Real(4, 1, [e])], false, true, false, false)
  {
    assert [4, 1][1..] == [1] && [1][1..] == [];
    var xs := [Real(0, 4, []), Real(4, 1, [])];
    assert RealAfter(xs, 0) == 1 && Seek(xs, 0, 4) == 1;
    PutFirst(xs[1], [e]);
    assert [e][..1] == [e];
    assert xs[1 := Real(4, 1, [e])] == [Real(0, 4, []), Real(4, 1, [e])];
    EnteredRound(xs, 1, 4, [e], GOOD);
    OneRound(xs, 1, 4, [e], GOOD, Round([Real(0, 4, []), Real(4, 1, [e])], 2, 1, false, false, false, false));
  }

  /** What is staged at 2: the byte, or nothing if it could not be written. */
  function Between(c: byte, fails: bool): seq<byte> {
    if fails then [] else [c]
  }

  lemma StageBetween(c: byte, e: byte, fails: bool)
    ensures WriteAt([Real(0, 4, []), Real(4, 1, [e])], 2, [c], if fails then FULL else GOOD) ==
      Done([Real(0, 4, []), Staged(2, Between(c, fails)), Real(4, 1, [e])], false, !fails, fails, false)
  {
    var xs := [Real(0, 4, []), Real(4, 1, [e])];
    var disk := if fails then FULL else GOOD;
    assert Seek(xs, 0, 2) == 1;
    assert [c][..1] == [c];
    CreatedRound(xs, 1, 1, 2, [c], disk);
    OneRound(xs, 1, 2, [c], disk, RoundAt(xs, 1, 2, [c], disk));
  }

  lemma FillFirst(a: seq<byte>, x: Ext, y: Ext)
    requires |a| == 4 && x.staging && y.offset == 4
    ensures WriteAt([Real(0, 4, []), x, y], 0, a, GOOD) == Done([Real(0, 4, a), x, y], false, true, false, false)
  {
    var xs := [Real(0, 4, []), x, y];
    assert Seek(xs, 0, 0) == 0;
    PutFirst(xs[0], a);
    assert a[..4] == a;
    assert xs[0 := Real(0, 4, a)] == [Real(0, 4, a), x, y];
    EnteredRound(xs, 0, 0, a, GOOD);
    OneRound(xs, 0, 0, a, GOOD, RoundAt(xs, 0, 0, a, GOOD));
  }

  /** Files [0,4) and [4,5): the second is written, then the byte at 2, then the first in one go; then the bytes at 3 and 4
      are read. */
  function Ops(a: seq<byte>, c: byte, e: byte, fails: bool): seq<Op> {
    [Write(4, [e], GOOD), Write(2, [c], if fails then FULL else GOOD), Write(0, a, GOOD), Read(3, 2)]
  }

  lemma Saved(a: seq<byte>, c: byte, e: byte, fails: bool, outs: seq<Outcome>)
    requires |a| == 4 && outs == [Wrote(true, false), Wrote(!fails, fails), Wrote(true, false)]
    ensures Known(Ops(a, c, e, fails), outs, 5, 3, 2)
  {
    var ops := Ops(a, c, e, fails);
    assert outs[..2] == [Wrote(true, false), Wrote(!fails, fails)] && outs[..2][..1] == [Wrote(true, false)];
    assert CellAt(ops, outs, 5, 3) == Is(a[3]);
    assert CellAt(ops, outs[..2][..1], 5, 4) == Is(e);
    assert CellAt(ops, outs[..2], 5, 4) == Is(e);
    assert CellAt(ops, outs, 5, 4) == Is(e);
  }

  /** The read goes wrong, though both bytes have been saved: because what is staged at 2 was left empty, or just because
      the first file has passed it. */
  lemma Misread(a: seq<byte>, c: byte, e: byte, fails: bool, outs: seq<Outcome>, trace: seq<seq<Ext>>)
    requires |a| == 4 && RunFits([4, 1], Ops(a, c, e, fails), outs, trace)
    ensures |outs| == 4 && outs[..3] == [Wrote(true, false), Wrote(!fails, fails), Wrote(true, false)]
    ensures Known(Ops(a, c, e, fails), outs[..3], 5, 3, 2) && outs[3].Got? && outs[3].strayed
  {
    hide WriteAt, Known, Agrees, SameView, Strict, Tiled, Ops, DataFits, CellAt, WriteStrays, Fresh;
    var ops := Ops(a, c, e, fails);
    OpsAre(a, c, e, fails);
    FillSecond(e);
    assert StepFits(ops, outs, trace[0], trace[1], 5, 0);
    StageBetween(c, e, fails);
    assert StepFits(ops, outs, trace[1], trace[2], 5, 1);
    FillFirst(a, Staged(2, Between(c, fails)), Real(4, 1, [e]));
    assert StepFits(ops, outs, trace[2], trace[3], 5, 2);
    Saved(a, c, e, fails, outs[..3]);
    assert Strays(trace[3], 0, 3, 2);
    assert StepFits(ops, outs, trace[3], trace[4], 5, 3);
  }

  /** Such a run. */
  method MisreadRun(a: seq<byte>, c: byte, e: byte, fails: bool) returns (f: Files, outs: seq<Outcome>)
    requires |a| == 4
    ensures f.total == 5 && |outs| == 4 && outs[..3] == [Wrote(true, false), Wrote(!fails, fails), Wrote(true, false)]
    ensures Known(Ops(a, c, e, fails), outs[..3], 5, 3, 2) && outs[3].Got? && outs[3].strayed
  {
    hide Ops, RunFits, Known, Sum;
    OpsAre(a, c, e, fails);
    ghost var trace;
    f, outs, trace := Run([4, 1], Ops(a, c, e, fails));
    Misread(a, c, e, fails, outs, trace);
  }

  lemma OpsAre(a: seq<byte>, c: byte, e: byte, fails: bool)
    ensures Ops(a, c, e, fails) ==
      [Write(4, [e], GOOD), Write(2, [c], if fails then FULL else GOOD), Write(0, a, GOOD), Read(3, 2)]
    ensures Sum([4, 1]) == 5
  {
    assert [4, 1][1..] == [1] && [1][1..] == [];
  }

  lemma StageAt(b: byte, d: byte)
    ensures Fresh([4, 4], 0) == [Real(0, 4, []), Real(4, 4, [])]
    ensures WriteAt([Real(0, 4, []), Real(4, 4, [])], 1, [b], GOOD) ==
      Done([Real(0, 4, []), Staged(1, [b]), Real(4, 4, [])], false, true, false, false)
    ensures WriteAt([Real(0, 4, []), Staged(1, [b]), Real(4, 4, [])], 3, [d], GOOD) ==
      Done([Real(0, 4, []), Staged(1, [b]), Staged(3, [d]), Real(4, 4, [])], false, true, false, false)
  {
    assert [4, 4][1..] == [4] && [4][1..] == [];
    assert [b][..1] == [b] && [d][..1] == [d];
    var xs := [Real(0, 4, []), Real(4, 4, [])];
    assert Seek(xs, 0, 1) == 1;
    CreatedRound(xs, 1, 1, 1, [b], GOOD);
    OneRound(xs, 1, 1, [b], GOOD, RoundAt(xs, 1, 1, [b], GOOD));
    var ys := [Real(0, 4, []), Staged(1, [b]), Real(4, 4, [])];
    assert Seek(ys, 2, 3) == 2 && Seek(ys, 1, 3) == 2 && Seek(ys, 0, 3) == 2;
    CreatedRound(ys, 2, 2, 3, [d], GOOD);
    OneRound(ys, 2, 3, [d], GOOD, RoundAt(ys, 2, 3, [d], GOOD));
  }

  /** The staging file at 1 is to end by the next one, at 3, which is before the place to write at: the room in it is taken
      to be more than any length. */
  lemma PastBoth(a: seq<byte>, b: byte, d: byte, buf: seq<byte>, disk: Disk)
    requires |a| == 4 && |buf| == 1 && disk.good > 0
    ensures WriteFrom([Real(0, 4, a), Staged(1, [b]), Staged(3, [d]), Real(4, 4, [])], 1, 4, buf, disk).lost
  {
    hide RoundAt, Put;
    var xs := [Real(0, 4, a), Staged(1, [b]), Staged(3, [d]), Real(4, 4, [])];
    EnteredRound(xs, 1, 4, buf, disk);
    FromRound(xs, 1, 4, buf, disk);
  }

  /** The write fills the first file and goes on to the staging file behind it. */
  lemma FillBoth(b: byte, d: byte, buf: seq<byte>)
    requires |buf| == 5
    ensures WriteAt([Real(0, 4, []), Staged(1, [b]), Staged(3, [d]), Real(4, 4, [])], 0, buf, GOOD).lost
  {
    hide RoundAt, Put, WriteFrom;
    var xs := [Real(0, 4, []), Staged(1, [b]), Staged(3, [d]), Real(4, 4, [])];
    assert Seek(xs, 0, 0) == 0;
    PutFirst(xs[0], buf[..4]);
    assert xs[0 := Real(0, 4, buf[..4])] == [Real(0, 4, buf[..4]), Staged(1, [b]), Staged(3, [d]), Real(4, 4, [])];
    EnteredRound(xs, 0, 0, buf, GOOD);
    FromRound(xs, 0, 0, buf, GOOD);
    PastBoth(buf[..4], b, d, buf[4..], GOOD.(good := 8));
  }

  /** Files [0,4) and [4,8): the bytes at 1 and 3 are written, then five bytes from 0 on, and they go astray. */
  lemma GoesAstray(b: byte, d: byte, buf: seq<byte>, outs: seq<Outcome>, trace: seq<seq<Ext>>)
    requires |buf| == 5 && RunFits([4, 4], [Write(1, [b], GOOD), Write(3, [d], GOOD), Write(0, buf, GOOD)], outs, trace)
    ensures outs == [Wrote(true, false), Wrote(true, false), Astray]
  {
    hide WriteAt, Agrees, SameView, Strict, Tiled, WriteStrays, Fresh;
    var ops := [Write(1, [b], GOOD), Write(3, [d], GOOD), Write(0, buf, GOOD)];
    assert [4, 4][1..] == [4] && [4][1..] == [];
    assert Sum([4, 4]) == 8;
    StageAt(b, d);
    assert StepFits(ops, outs, trace[0], trace[1], 8, 0);
    assert StepFits(ops, outs, trace[1], trace[2], 8, 1);
    FillBoth(b, d, buf);
    assert StepFits(ops, outs, trace[2], trace[3], 8, 2);
  }
}
