/** What merging makes of the files, as a function of what they hold (btfiles.cpp, MergeStaging and FindAndMerge). */
module FileMerges {
  import opened FileLayout
  import opened Sequences

  const OPT_IO_SIZE: nat := 256 * 1024

  /** How many writes it takes to copy `n` bytes. */
  function Portions(n: nat): nat {
    (n + OPT_IO_SIZE - 1) / OPT_IO_SIZE
  }

  /** What the files hold then; whether a staging file has gone; whether a write has failed; and how many more writes would
      have gone well. */
  datatype MergeRun = MergeRun(xs: seq<Ext>, merged: bool, failed: bool, spare: nat)

  /** The staging file behind entry `j` is merged, on a disk on which `good` writes go well. */
  ghost function MergeOne(xs: seq<Ext>, j: nat, good: nat): MergeRun
    requires Mergeable(xs, j)
  {
    var rest := Rest(xs, j);
    if rest <= good * OPT_IO_SIZE then MergeRun(Without(Merged(xs, j, rest), j + 1), true, false, good - Portions(rest))
    else MergeRun(Merged(xs, j, good * OPT_IO_SIZE), false, true, 0)
  }

  /** The first entry from `i` on with something to merge, or the length of the list. */
  ghost function FirstMergeable(xs: seq<Ext>, i: nat): (j: nat)
    requires i <= |xs|
    ensures i <= j <= |xs| && (j < |xs| ==> Mergeable(xs, j)) && forall k :: i <= k < j ==> !Mergeable(xs, k)
    decreases |xs| - i
  {
    if i == |xs| || Mergeable(xs, i) then i else FirstMergeable(xs, i + 1)
  }

  /** Merge the first that can be merged, once or again and again. */
  ghost function Merges(xs: seq<Ext>, findall: bool, good: nat): MergeRun
    decreases |xs|
  {
    var j := FirstMergeable(xs, 0);
    if j == |xs| then MergeRun(xs, false, false, good)
    else
      var one := MergeOne(xs, j, good);
      if one.failed || !findall then one else Merges(one.xs, findall, one.spare).(merged := true)
  }

  /** The writes it would take to copy all staging files. */
  ghost function StagedPortions(xs: seq<Ext>): nat {
    if xs == [] then 0 else StagedPortions(xs[1..]) + if xs[0].staging then Portions(|xs[0].data|) else 0
  }

  lemma {:induction false} StagedWithout(xs: seq<Ext>, k: nat)
    requires k < |xs| && xs[k].staging
    ensures StagedPortions(xs) == StagedPortions(Without(xs, k)) + Portions(|xs[k].data|)
  {
    hide Portions;
    if k > 0 {
      StagedWithout(xs[1..], k - 1);
      assert Without(xs, k)[1..] == Without(xs[1..], k - 1);
    } else {
      assert Without(xs, 0) == xs[1..];
    }
  }

  lemma {:induction false} StagedUpdate(xs: seq<Ext>, k: nat, x: Ext)
    requires k < |xs| && !xs[k].staging && !x.staging
    ensures StagedPortions(xs[k := x]) == StagedPortions(xs)
  {
    hide Portions;
    if k > 0 {
      StagedUpdate(xs[1..], k - 1, x);
      assert xs[k := x][1..] == xs[1..][k - 1 := x];
    } else {
      assert xs[k := x][1..] == xs[1..];
    }
  }

  /** A merge keeps what is shown and takes the staging file away, unless a write fails; then there is more to copy. */
  lemma OneRight(xs: seq<Ext>, total: nat, j: nat, good: nat)
    requires Tiled(xs, total) && Mergeable(xs, j)
    ensures var r := MergeOne(xs, j, good);
      && Tiled(r.xs, total) && SameView(xs, r.xs) && (Strict(xs) ==> Strict(r.xs))
      && (r.failed ==> r.spare == 0 && Mergeable(r.xs, j) && 0 < Rest(r.xs, j) && good < StagedPortions(xs))
      && (!r.failed ==> r.merged && r.spare + StagedPortions(xs) >= good + StagedPortions(r.xs))
  {
    hide Tiled, View, SameView, Strict, StagedPortions, Merged;
    var rest := Rest(xs, j);
    StagedWithout(xs, j + 1);
    if rest <= good * OPT_IO_SIZE {
      MergeDone(xs, total, j);
      if Strict(xs) { MergeDoneStrict(xs, total, j); }
      TakenOut(xs, j, rest);
    } else {
      MergedView(xs, total, j, good * OPT_IO_SIZE);
      MergedTiled(xs, total, j, good * OPT_IO_SIZE);
      if Strict(xs) { MergedStrict(xs, j, good * OPT_IO_SIZE); }
      StillThere(xs, total, j, good * OPT_IO_SIZE);
    }
  }

  lemma TakenOut(xs: seq<Ext>, j: nat, t: nat)
    requires Mergeable(xs, j) && t <= Rest(xs, j)
    ensures StagedPortions(xs) == StagedPortions(Without(Merged(xs, j, t), j + 1)) + Portions(|xs[j + 1].data|)
  {
    hide StagedPortions, Portions;
    var ys := Merged(xs, j, t);
    StagedUpdate(xs, j, ys[j]);
    StagedWithout(ys, j + 1);
  }

  lemma StillThere(xs: seq<Ext>, total: nat, j: nat, t: nat)
    requires Tiled(xs, total) && Mergeable(xs, j) && t < Rest(xs, j)
    ensures Mergeable(Merged(xs, j, t), j) && 0 < Rest(Merged(xs, j, t), j)
  {
    assert EntryTiled(xs, total, j) && EntryTiled(xs, total, j + 1);
    LimitBounds(xs, total, j, j + 1);
  }

  /** What merging promises. Nothing that is shown changes. A write fails only on a disk on which fewer go well than it
      takes to copy all that is staged, and then there is something left to copy. Otherwise something is merged exactly if
      something could be, and if everything is to be merged nothing is left. */
  lemma {:induction false} MergesRight(xs: seq<Ext>, total: nat, findall: bool, good: nat)
    requires Tiled(xs, total)
    ensures var r := Merges(xs, findall, good);
      && Tiled(r.xs, total) && SameView(xs, r.xs) && (Strict(xs) ==> Strict(r.xs))
      && (r.failed ==> r.spare == 0 && good < StagedPortions(xs) && exists i :: 0 <= i < |r.xs| && Mergeable(r.xs, i) && 0 < Rest(r.xs, i))
      && (!r.failed ==> (r.merged <==> exists i :: 0 <= i < |xs| && Mergeable(xs, i)))
      && (!r.failed && findall ==> forall i :: 0 <= i < |r.xs| ==> !Mergeable(r.xs, i))
    decreases |xs|
  {
    hide Tiled, View, SameView, Strict, StagedPortions, Merged, Mergeable, Rest, Portions;
    var j := FirstMergeable(xs, 0);
    if j < |xs| {
      OneRight(xs, total, j, good);
      var one := MergeOne(xs, j, good);
      if !one.failed && findall {
        MergesRight(one.xs, total, findall, one.spare);
        SameTwice(xs, one.xs, Merges(one.xs, findall, one.spare).xs);
      }
    } else {
      SameTwice(xs, xs, xs);
    }
  }

  lemma SameTwice(xs: seq<Ext>, ys: seq<Ext>, zs: seq<Ext>)
    ensures SameView(xs, ys) && SameView(ys, zs) ==> SameView(xs, zs)
    ensures SameView(xs, xs)
  {
  }

  /** Only the first that can be merged goes when one is to go, and all of its bytes are in the real file then. */
  lemma MergesFirst(xs: seq<Ext>, good: nat)
    requires !Merges(xs, false, good).failed
    ensures Merges(xs, false, good).merged ==> var j := FirstMergeable(xs, 0);
      j < |xs| && Merges(xs, false, good).xs == Without(Merged(xs, j, Rest(xs, j)), j + 1)
    ensures !Merges(xs, false, good).merged ==> Merges(xs, false, good).xs == xs
  {
    hide Merged, Mergeable, Rest;
    var j := FirstMergeable(xs, 0);
    assert j < |xs| ==> Mergeable(xs, j);
  }
}
