/** Slices and pieces of a request queue (btrequest.h), their order, and which of them have been sent. */
module QueueSlices {
  import opened Sequences

  class Slice {
    const index: nat
    const offset: nat
    const length: nat
    var reqtime: nat
    var sent: bool
    var next: Slice?

    constructor (index: nat, offset: nat, length: nat)
      ensures this.index == index && this.offset == offset && this.length == length
      ensures reqtime == 0 && !sent && next == null
    {
      this.index, this.offset, this.length := index, offset, length;
      reqtime, sent, next := 0, false, null;
    }
  }

  class Piece {
    var count: nat
    var slices: Slice?
    var next: Piece?

    constructor ()
      ensures count == 0 && slices == null && next == null
    {
      count, slices, next := 0, null, null;
    }
  }

  function At(s: seq<Slice>, i: int): Slice? {
    if 0 <= i < |s| then s[i] else null
  }

  function PieceAt(s: seq<Piece>, i: int): Piece? {
    if 0 <= i < |s| then s[i] else null
  }

  /** `s` is the list of slices of piece `p`. */
  ghost predicate Chain(p: Piece, s: seq<Slice>)
    reads p`slices, p`count, s`next
  {
    && s != [] && p.slices == s[0] && p.count == |s|
    && (forall k {:trigger s[k].next} :: 0 <= k < |s| ==> s[k].next == At(s, k + 1))
  }

  /** `ps` is the list of pieces that starts at `h`. */
  ghost predicate PieceList(ps: seq<Piece>, h: Piece?)
    reads ps`next
  {
    && h == PieceAt(ps, 0)
    && (forall i {:trigger ps[i].next} :: 0 <= i < |ps| ==> ps[i].next == PieceAt(ps, i + 1))
  }

  /** What remains when `ps[i]` has been bypassed. */
  lemma PieceListWithout(ps: seq<Piece>, h: Piece?, i: nat)
    requires i < |ps|
    requires forall j {:trigger ps[j].next} :: 0 <= j < |ps| && j != i - 1 ==> ps[j].next == PieceAt(ps, j + 1)
    requires if i == 0 then h == PieceAt(ps, 1) else h == ps[0] && ps[i - 1].next == PieceAt(ps, i + 1)
    ensures PieceList(Without(ps, i), h)
  {
    var qs := Without(ps, i);
    forall j {:trigger qs[j].next} | 0 <= j < |qs| ensures qs[j].next == PieceAt(qs, j + 1) {
      assert qs[j] == ps[if j < i then j else j + 1];
    }
  }

  /** Every piece has slices, all of one index, and no index is queued twice. */
  ghost predicate Shape(lists: seq<seq<Slice>>) {
    && (forall i :: 0 <= i < |lists| ==> lists[i] != [] && Distinct(lists[i]))
    && (forall i, s :: 0 <= i < |lists| && s in lists[i] ==> s.index == lists[i][0].index)
    && (forall i, j :: 0 <= i < j < |lists| ==> lists[i][0].index != lists[j][0].index)
  }

  ghost function Nodes(lists: seq<seq<Slice>>): set<Slice> {
    set i, s | 0 <= i < |lists| && s in lists[i] :: s
  }

  /** Each piece holds its own slices. */
  ghost predicate Chains(ps: seq<Piece>, lists: seq<seq<Slice>>)
    reads ps`slices, ps`count, Nodes(lists)`next
  {
    && |ps| == |lists|
    && forall i :: 0 <= i < |ps| ==>
      assert forall s :: s in lists[i] ==> s in Nodes(lists);
      Chain(ps[i], lists[i])
  }

  lemma ShapeUpdate(lists: seq<seq<Slice>>, i: nat, list: seq<Slice>)
    requires Shape(lists) && i < |lists| && list != [] && Distinct(list)
    requires forall s :: s in list ==> s.index == lists[i][0].index
    ensures Shape(lists[i := list])
  {
  }

  lemma ShapeWithout(lists: seq<seq<Slice>>, i: nat)
    requires Shape(lists) && i < |lists|
    ensures Shape(Without(lists, i))
  {
  }

  lemma ShapeAppend(lists: seq<seq<Slice>>, list: seq<Slice>)
    requires Shape(lists) && list != [] && Distinct(list) && forall s :: s in list ==> s.index == list[0].index
    requires forall i :: 0 <= i < |lists| ==> lists[i][0].index != list[0].index
    ensures Shape(lists + [list])
  {
  }

  /** Pieces share no slices. */
  lemma ShapeApart(lists: seq<seq<Slice>>, i: nat, s: Slice)
    requires Shape(lists) && i < |lists| && s.index == lists[i][0].index
    ensures forall j :: 0 <= j < |lists| && j != i ==> s !in lists[j]
  {
    forall j | 0 <= j < |lists| && j != i ensures s !in lists[j] {
      assert if i < j then lists[i][0].index != lists[j][0].index else lists[j][0].index != lists[i][0].index;
    }
  }

  /** The order in which the slices are to be sent. */
  ghost function Flat(lists: seq<seq<Slice>>): seq<Slice> {
    if lists == [] then [] else lists[0] + Flat(lists[1..])
  }

  /** The place in that order of the first slice of piece `i`. */
  ghost function Start(lists: seq<seq<Slice>>, i: nat): nat
    requires i <= |lists|
  {
    |Flat(lists[..i])|
  }

  /** The first `n` of `s` have been sent, and no other. */
  ghost predicate SentPrefix(s: seq<Slice>, n: nat)
    reads s`sent
  {
    n <= |s| && forall i :: 0 <= i < |s| ==> (s[i].sent <==> i < n)
  }

  lemma {:induction false} FlatConcat(a: seq<seq<Slice>>, b: seq<seq<Slice>>)
    ensures Flat(a + b) == Flat(a) + Flat(b)
  {
    if a == [] {
      assert a + b == b;
    } else {
      assert (a + b)[1..] == a[1..] + b;
      FlatConcat(a[1..], b);
    }
  }

  lemma FlatAppend(lists: seq<seq<Slice>>, s: seq<Slice>)
    ensures Flat(lists + [s]) == Flat(lists) + s
  {
    FlatConcat(lists, [s]);
    assert Flat([s]) == s;
  }

  /** Piece `i` and what comes before and after it. */
  lemma FlatSplit(lists: seq<seq<Slice>>, i: nat)
    requires i < |lists|
    ensures Start(lists, i + 1) == Start(lists, i) + |lists[i]| <= |Flat(lists)|
    ensures Flat(lists)[..Start(lists, i)] == Flat(lists[..i])
    ensures Flat(lists)[Start(lists, i)..Start(lists, i + 1)] == lists[i]
    ensures Flat(lists)[Start(lists, i + 1)..] == Flat(lists[i + 1..])
  {
    var a, b := lists[..i], lists[i + 1..];
    assert lists == (a + [lists[i]]) + b;
    assert lists[..i + 1] == a + [lists[i]];
    FlatConcat(a + [lists[i]], b);
    FlatAppend(a, lists[i]);
    hide *;
    var x, y, z := Flat(a), lists[i], Flat(b);
    assert Flat(lists) == x + y + z && Flat(a + [lists[i]]) == x + y;
  }

  lemma {:induction false} FlatHas(lists: seq<seq<Slice>>, s: Slice)
    ensures s in Flat(lists) <==> exists i :: 0 <= i < |lists| && s in lists[i]
  {
    if lists != [] {
      FlatHas(lists[1..], s);
      if i :| 0 <= i < |lists[1..]| && s in lists[1..][i] { assert s in lists[i + 1]; }
      if i :| 0 <= i < |lists| && s in lists[i] { assert i > 0 ==> lists[i] == lists[1..][i - 1]; }
    }
  }

  /** Replacing the slices of piece `i`, or taking the piece out. */
  lemma FlatUpdate(lists: seq<seq<Slice>>, i: nat, s: seq<Slice>)
    requires i < |lists|
    ensures Start(lists, i) <= Start(lists, i + 1) <= |Flat(lists)|
    ensures Flat(lists[i := s]) == Flat(lists)[..Start(lists, i)] + s + Flat(lists)[Start(lists, i + 1)..]
    ensures Flat(Without(lists, i)) == Flat(lists)[..Start(lists, i)] + Flat(lists)[Start(lists, i + 1)..]
  {
    hide Flat;
    FlatSplit(lists, i);
    var a, b := lists[..i], lists[i + 1..];
    assert lists[i := s] == (a + [s]) + b && Without(lists, i) == a + b;
    FlatConcat(a + [s], b);
    FlatAppend(a, s);
    FlatConcat(a, b);
  }

  /** What follows slice `k` of piece `i` in the order: its successor, or the first slice of the next piece. */
  lemma FlatNext(lists: seq<seq<Slice>>, i: nat, k: nat)
    requires i < |lists| && k < |lists[i]| && forall j :: 0 <= j < |lists| ==> lists[j] != []
    ensures At(Flat(lists), Start(lists, i) + k) == lists[i][k]
    ensures At(Flat(lists), Start(lists, i) + k + 1) ==
      if k + 1 < |lists[i]| then lists[i][k + 1] else if i + 1 < |lists| then lists[i + 1][0] else null
  {
    hide Flat;
    FlatSplit(lists, i);
    var f, a, b := Flat(lists), Start(lists, i), Start(lists, i + 1);
    assert f[a + k] == f[a..b][k];
    if k + 1 < |lists[i]| {
      assert f[a + k + 1] == f[a..b][k + 1];
    } else if i + 1 < |lists| {
      FlatSplit(lists, i + 1);
      assert f[b] == f[b..Start(lists, i + 2)][0];
    } else {
      assert lists[..i + 1] == lists;
    }
  }

  /** The piece, and the place in it, of what comes `m`-th in the order. */
  lemma {:induction false} Locate(lists: seq<seq<Slice>>, m: nat) returns (i: nat, k: nat)
    requires m < |Flat(lists)|
    ensures i < |lists| && k < |lists[i]| && Start(lists, i) + k == m && Flat(lists)[m] == lists[i][k]
  {
    if m < |lists[0]| {
      i, k := 0, m;
    } else {
      i, k := Locate(lists[1..], m - |lists[0]|);
      assert lists[..i + 1] == [lists[0]] + lists[1..][..i];
      i := i + 1;
    }
  }

  lemma {:induction false} FlatDistinct(lists: seq<seq<Slice>>)
    requires Shape(lists)
    ensures Distinct(Flat(lists))
  {
    if lists != [] {
      var first, rest := lists[0], lists[1..];
      assert forall i :: 0 <= i < |rest| ==> rest[i] == lists[i + 1];
      FlatDistinct(rest);
      forall s | s in first ensures s !in Flat(rest) {
        FlatHas(rest, s);
      }
      DistinctConcat(first, Flat(rest));
    }
  }

  /** The place of the piece `idx` in the queue, or the length of the queue. */
  ghost function Find(lists: seq<seq<Slice>>, idx: nat): (i: nat)
    ensures i <= |lists| && (i < |lists| ==> lists[i] != [] && lists[i][0].index == idx)
    ensures forall j :: 0 <= j < i ==> lists[j] != [] ==> lists[j][0].index != idx
  {
    if lists == [] then 0
    else if lists[0] != [] && lists[0][0].index == idx then 0
    else
      assert forall j :: 1 <= j < |lists| ==> lists[j] == lists[1..][j - 1];
      1 + Find(lists[1..], idx)
  }

  lemma NodesFlat(lists: seq<seq<Slice>>)
    ensures forall s :: s in Nodes(lists) <==> s in Flat(lists)
  {
    forall s ensures s in Nodes(lists) <==> s in Flat(lists) {
      FlatHas(lists, s);
    }
  }

  lemma FindIs(lists: seq<seq<Slice>>, i: nat)
    requires Shape(lists) && i < |lists|
    ensures Find(lists, lists[i][0].index) == i && forall s :: s in lists[i] ==> s.index == lists[i][0].index
  {
  }

  ghost predicate Matches(s: Slice, off: nat, len: nat) {
    s.offset == off && s.length == len
  }

  /** The place of the first slice of `list` with that offset and length, or the length of the list. */
  ghost function FindIn(list: seq<Slice>, off: nat, len: nat): (k: nat)
    ensures k <= |list| && (k < |list| ==> Matches(list[k], off, len))
    ensures forall j :: 0 <= j < k ==> !Matches(list[j], off, len)
  {
    if list == [] then 0 else if Matches(list[0], off, len) then 0 else 1 + FindIn(list[1..], off, len)
  }

  /** The queue with slice `s` at the end of its piece, which is a new last piece if need be. */
  ghost function Added(lists: seq<seq<Slice>>, s: Slice): seq<seq<Slice>>
  {
    var i := Find(lists, s.index);
    if i < |lists| then lists[i := lists[i] + [s]] else lists + [[s]]
  }

  /** No two slices start at the same offset. */
  ghost predicate OffsetsDiffer(s: seq<Slice>) {
    forall i, j :: 0 <= i < j < |s| ==> s[i].offset != s[j].offset
  }

  /** Where in the order a slice that is added to piece `idx` comes. */
  ghost function Place(lists: seq<seq<Slice>>, idx: nat): (p: nat)
    ensures p <= |Flat(lists)|
  {
    var i := Find(lists, idx);
    if i < |lists| then FlatSplit(lists, i); Start(lists, i + 1) else |Flat(lists)|
  }

  lemma FlatAdded(lists: seq<seq<Slice>>, s: Slice)
    ensures Place(lists, s.index) <= |Flat(lists)|
    ensures Flat(Added(lists, s)) ==
      Flat(lists)[..Place(lists, s.index)] + [s] + Flat(lists)[Place(lists, s.index)..]
  {
    hide Flat;
    var f, i := Flat(lists), Find(lists, s.index);
    if i < |lists| {
      FlatSplit(lists, i);
      FlatUpdate(lists, i, lists[i] + [s]);
      GrowWithin(f, Start(lists, i), Start(lists, i + 1), s);
    } else {
      FlatAppend(lists, [s]);
      assert f + [s] == f[..|f|] + [s] + f[|f|..];
    }
  }

  /** The queue without slice `k` of piece `i`, and without the piece if that was its last one. */
  ghost function Removed(lists: seq<seq<Slice>>, i: nat, k: nat): seq<seq<Slice>>
    requires i < |lists| && k < |lists[i]|
  {
    if |lists[i]| == 1 then Without(lists, i) else lists[i := Without(lists[i], k)]
  }

  lemma FlatRemoved(lists: seq<seq<Slice>>, i: nat, k: nat)
    requires i < |lists| && k < |lists[i]|
    ensures Start(lists, i) + k < |Flat(lists)|
    ensures Flat(Removed(lists, i, k)) == Flat(lists)[..Start(lists, i) + k] + Flat(lists)[Start(lists, i) + k + 1..]
  {
    hide Flat;
    FlatSplit(lists, i);
    FlatUpdate(lists, i, Without(lists[i], k));
    ShrinkWithin(Flat(lists), Start(lists, i), Start(lists, i + 1), k);
  }

  lemma {:induction false} StartMonotone(lists: seq<seq<Slice>>, i: nat, j: nat)
    requires i <= j <= |lists|
    ensures Start(lists, i) <= Start(lists, j)
    ensures Start(lists, |lists|) == |Flat(lists)|
    ensures i < j && lists[i] != [] ==> Start(lists, i) < Start(lists, j)
    decreases j - i
  {
    assert lists[..|lists|] == lists;
    if i < j {
      FlatSplit(lists, i);
      StartMonotone(lists, i + 1, j);
    }
  }

  /** A slice of piece `i` precedes all of piece `j` exactly if `i < j`. */
  lemma SlicePlace(lists: seq<seq<Slice>>, i: nat, k: nat, j: nat)
    requires i < |lists| && k < |lists[i]| && j < |lists|
    ensures Start(lists, i) + k < Start(lists, j + 1) <==> i <= j
  {
    FlatSplit(lists, i);
    if i <= j {
      StartMonotone(lists, i + 1, j + 1);
    } else {
      StartMonotone(lists, j + 1, i);
    }
  }

  /** What comes `m`-th belongs to piece `i` exactly if it lies between the starts of `i` and the next piece. */
  lemma IndexPlace(lists: seq<seq<Slice>>, m: nat, i: nat)
    requires Shape(lists) && m < |Flat(lists)| && i < |lists|
    ensures Flat(lists)[m].index == lists[i][0].index <==> Start(lists, i) <= m < Start(lists, i + 1)
    ensures Flat(lists)[m].index == lists[i][0].index ==> Flat(lists)[m] in lists[i]
  {
    var j, k := Locate(lists, m);
    FindIs(lists, j);
    SlicePlace(lists, j, k, i);
    if i > 0 {
      SlicePlace(lists, j, k, i - 1);
    }
  }

  /** How many of the first `n` remain when what lies in `[a, b)` is taken out. */
  ghost function Cut(n: nat, a: nat, b: nat): nat {
    if n <= a then n else if n <= b then a else n - (b - a)
  }

  lemma CutSent(f: seq<Slice>, a: nat, b: nat, n: nat)
    requires SentPrefix(f, n) && a <= b <= |f|
    ensures SentPrefix(f[..a] + f[b..], Cut(n, a, b))
    ensures At(f[..a] + f[b..], Cut(n, a, b)) == if a <= n < b then At(f, b) else At(f, n)
  {
    var g := f[..a] + f[b..];
    forall i | 0 <= i < |g| ensures g[i].sent <==> i < Cut(n, a, b) {
      assert g[i] == if i < a then f[i] else f[i + (b - a)];
    }
  }

  /** As SentPrefix, but the slice at `p` has still to be sent. */
  ghost predicate SentBut(s: seq<Slice>, n: nat, p: nat)
    reads s`sent
  {
    p < n <= |s| && forall i :: 0 <= i < |s| ==> (s[i].sent <==> i < n && i != p)
  }

  lemma GrowSent(f: seq<Slice>, p: nat, s: Slice, n: nat)
    requires SentPrefix(f, n) && p <= |f| && !s.sent
    ensures n <= p ==> SentPrefix(f[..p] + [s] + f[p..], n)
    ensures n >= p ==> SentBut(f[..p] + [s] + f[p..], n + 1, p)
    ensures n >= p ==> At(f[..p] + [s] + f[p..], n + 1) == At(f, n)
    ensures n < p ==> At(f[..p] + [s] + f[p..], n) == At(f, n)
  {
    var g := f[..p] + [s] + f[p..];
    assert forall i :: 0 <= i < |g| ==> g[i] == if i < p then f[i] else if i == p then s else f[i - 1];
    forall i | 0 <= i < |g| ensures (n <= p ==> (g[i].sent <==> i < n)) && (n >= p ==> (g[i].sent <==> i < n + 1 && i != p)) {
      assert i < p ==> g[i] == f[i];
      assert i > p ==> g[i] == f[i - 1];
    }
  }

  /** A cursor that was right before `s` was put in at `p`, and moved to `s` if there was nothing left to send. */
  lemma GrowCursor(f: seq<Slice>, p: nat, s: Slice, n: nat)
    requires SentPrefix(f, n) && p <= |f| && !s.sent && s !in f
    ensures
      var g, send := f[..p] + [s] + f[p..], if n == p == |f| then s else At(f, n);
      SentPrefix(g, n) && send == At(g, n) <==> n < p || n == p == |f|
  {
    GrowSent(f, p, s, n);
    var g := f[..p] + [s] + f[p..];
    assert g[p] == s;
    assert n == p < |f| ==> f[n] in f;
  }

  /** A list of unsent slices at the end of the order. */
  lemma AppendSent(f: seq<Slice>, list: seq<Slice>, n: nat)
    requires SentPrefix(f, n) && SentPrefix(list, 0)
    ensures SentPrefix(f + list, n)
    ensures list != [] ==> At(f + list, n) == if n < |f| then At(f, n) else list[0]
  {
    var g := f + list;
    forall i | 0 <= i < |g| ensures g[i].sent <==> i < n {
      assert g[i] == if i < |f| then f[i] else list[i - |f|];
    }
  }

  /** The part of the order that belongs to one piece. */
  lemma SentWithin(f: seq<Slice>, a: nat, b: nat, n: nat) returns (m: nat)
    requires SentPrefix(f, n) && a <= b <= |f|
    ensures SentPrefix(f[a..b], m)
  {
    m := if n <= a then 0 else if n <= b then n - a else b - a;
    var g := f[a..b];
    forall i | 0 <= i < |g| ensures g[i].sent <==> i < m {
      assert g[i] == f[a + i];
    }
  }

  /** Whether the queue holds that slice, and its place in the order. */
  ghost predicate Holds(lists: seq<seq<Slice>>, idx: nat, off: nat, len: nat)
  {
    var i := Find(lists, idx);
    i < |lists| && FindIn(lists[i], off, len) < |lists[i]|
  }

  ghost function Slot(lists: seq<seq<Slice>>, idx: nat, off: nat, len: nat): nat
    requires Holds(lists, idx, off, len)
  {
    Start(lists, Find(lists, idx)) + FindIn(lists[Find(lists, idx)], off, len)
  }

  /** The queue without that slice. */
  ghost function Less(lists: seq<seq<Slice>>, idx: nat, off: nat, len: nat): seq<seq<Slice>>
    requires Holds(lists, idx, off, len)
  {
    Removed(lists, Find(lists, idx), FindIn(lists[Find(lists, idx)], off, len))
  }

  ghost predicate Has(lists: seq<seq<Slice>>, idx: nat)
  {
    Find(lists, idx) < |lists|
  }

  ghost predicate Common(list: seq<Slice>, wanted: set<nat>, other: seq<seq<Slice>>) {
    list != [] && list[0].index in wanted && !Has(other, list[0].index)
  }

  /** The place of the first piece that is in `wanted` and not in `other`, or the length of the queue. */
  ghost function FindCommon(lists: seq<seq<Slice>>, wanted: set<nat>, other: seq<seq<Slice>>): (i: nat)
    ensures i <= |lists| && (i < |lists| ==> Common(lists[i], wanted, other))
    ensures forall j :: 0 <= j < i ==> !Common(lists[j], wanted, other)
  {
    if lists == [] then 0
    else if Common(lists[0], wanted, other) then 0
    else
      assert forall j :: 1 <= j < |lists| ==> lists[j] == lists[1..][j - 1];
      1 + FindCommon(lists[1..], wanted, other)
  }

  /** The place of a slice that has just been added, when no other like it was there. */
  lemma SlotAdded(lists: seq<seq<Slice>>, s: Slice)
    requires Shape(lists) && !Holds(lists, s.index, s.offset, s.length)
    ensures Shape(Added(lists, s)) ==>
      Holds(Added(lists, s), s.index, s.offset, s.length)
      && Slot(Added(lists, s), s.index, s.offset, s.length) == Place(lists, s.index)
  {
    hide Flat, Find, FindIn;
    var i, after := Find(lists, s.index), Added(lists, s);
    if Shape(after) {
      assert after[..i] == lists[..i] && after[i] == (if i < |lists| then lists[i] else []) + [s];
      FindIs(after, i);
      LastIn(if i < |lists| then lists[i] else [], s);
      FlatSplit(after, i);
      if i < |lists| {
        FlatSplit(lists, i);
      }
    }
  }

  lemma LastIn(list: seq<Slice>, s: Slice)
    requires FindIn(list, s.offset, s.length) == |list|
    ensures FindIn(list + [s], s.offset, s.length) == |list|
  {
    hide FindIn;
    var after := list + [s];
    assert after[|list|] == s && forall j :: 0 <= j < |list| ==> after[j] == list[j];
  }

  /** Slices `list` of a last piece, of which there may be none yet. */
  ghost function WithLast(base: seq<seq<Slice>>, list: seq<Slice>): seq<seq<Slice>> {
    if list == [] then base else base + [list]
  }

  lemma AddedLast(base: seq<seq<Slice>>, list: seq<Slice>, s: Slice)
    requires !Has(base, s.index)
    requires Shape(WithLast(base, list)) && (list != [] ==> list[0].index == s.index)
    ensures Added(WithLast(base, list), s) == WithLast(base, list + [s])
    ensures Place(WithLast(base, list), s.index) == |Flat(WithLast(base, list))|
    ensures Flat(WithLast(base, list)) == Flat(base) + list
  {
    hide Flat, Find;
    var lists := WithLast(base, list);
    if list != [] {
      FindIs(lists, |base|);
      assert lists[|base|] == list && lists[|base| := list + [s]] == base + [list + [s]];
      StartMonotone(lists, |lists|, |lists|);
      FlatAppend(base, list);
    } else {
      assert list + [s] == [s];
    }
  }

  /** Requests for the same parts of the torrent. */
  ghost predicate SameSlices(a: seq<Slice>, b: seq<Slice>) {
    && |a| == |b|
    && forall i :: 0 <= i < |a| ==> a[i].index == b[i].index && Matches(a[i], b[i].offset, b[i].length)
  }

  lemma SameNext(source: seq<Slice>, list: seq<Slice>, s: Slice)
    requires |list| < |source| && SameSlices(list, source[..|list|])
    requires s.index == source[|list|].index && Matches(s, source[|list|].offset, source[|list|].length)
    ensures SameSlices(list + [s], source[..|list| + 1])
  {
  }

  lemma SameNone(source: seq<Slice>)
    ensures SameSlices([], source[..0])
  {
  }

  lemma SameAll(source: seq<Slice>, list: seq<Slice>)
    requires |list| == |source| && SameSlices(list, source[..|list|])
    ensures SameSlices(list, source)
  {
  }

  lemma AddedNone(base: seq<seq<Slice>>)
    ensures WithLast(base, []) == base
  {
  }

  lemma AddedSome(base: seq<seq<Slice>>, list: seq<Slice>)
    requires list != []
    ensures WithLast(base, list) == base + [list]
  {
  }

  /** The slices of one piece in another order, with those that have been sent still in front. */
  lemma Rearranged(f: seq<Slice>, a: nat, b: nat, list: seq<Slice>, n: nat)
    requires SentPrefix(f, n) && a <= b <= |f| && |list| == b - a
    requires forall j :: 0 <= j < |list| ==> (list[j].sent <==> a + j < n)
    ensures SentPrefix(f[..a] + list + f[b..], n)
    ensures At(f[..a] + list + f[b..], n) == if a <= n < b then list[n - a] else At(f, n)
  {
    var g := f[..a] + list + f[b..];
    forall i | 0 <= i < |g| ensures g[i].sent <==> i < n {
      assert g[i] == if a <= i < b then list[i - a] else f[i];
    }
  }

  lemma Relisted(lists: seq<seq<Slice>>, i: nat, list: seq<Slice>, n: nat)
    requires i < |lists| && SentPrefix(Flat(lists), n) && |list| == |lists[i]|
    requires forall j :: 0 <= j < |list| ==> (list[j].sent <==> Start(lists, i) + j < n)
    ensures SentPrefix(Flat(lists[i := list]), n)
    ensures At(Flat(lists[i := list]), n) ==
      if Start(lists, i) <= n < Start(lists, i) + |list| then list[n - Start(lists, i)] else At(Flat(lists), n)
  {
    hide Flat, Start;
    FlatSplit(lists, i);
    FlatUpdate(lists, i, list);
    Rearranged(Flat(lists), Start(lists, i), Start(lists, i + 1), list, n);
  }

  lemma MovedLast(lists: seq<seq<Slice>>, i: nat, k: nat, n: nat)
    requires i < |lists| && SentPrefix(Flat(lists), n) && k < |lists[i]| - 1 && n <= Start(lists, i) + k
    ensures Start(lists, i) + k < |Flat(lists)| && Flat(lists)[Start(lists, i) + k] == lists[i][k]
    ensures !lists[i][k].sent
    ensures var after := lists[i := Without(lists[i], k) + [lists[i][k]]];
      SentPrefix(Flat(after), n) && At(Flat(after), n) == At(Flat(lists), if n == Start(lists, i) + k then n + 1 else n)
    ensures At(Flat(lists), Start(lists, i) + k + 1) == lists[i][k + 1]
  {
    hide Flat, Start;
    FlatSplit(lists, i);
    var f, a, b, list := Flat(lists), Start(lists, i), Start(lists, i + 1), lists[i];
    forall j | 0 <= j < |list| ensures list[j] == f[a + j] && (list[j].sent <==> a + j < n) {
      assert list[j] == f[a..b][j];
    }
    var after := Without(list, k) + [list[k]];
    assert forall j :: 0 <= j < |list| ==> after[j] == list[if j < k then j else if j < |list| - 1 then j + 1 else k];
    hide SentPrefix;
    Relisted(lists, i, after, n);
  }

  lemma FlatElements(lists: seq<seq<Slice>>, i: nat, list: seq<Slice>)
    requires i < |lists| && SameElements(list, lists[i])
    ensures SameElements(Flat(lists[i := list]), Flat(lists))
  {
    hide Flat;
    FlatSplit(lists, i);
    FlatUpdate(lists, i, list);
    var f, a, b := Flat(lists), Start(lists, i), Start(lists, i + 1);
    assert f == f[..a] + lists[i] + f[b..];
  }

  /** How many of `s[a..b]` have been sent when the first `n` of `s` have. */
  function SentIn(n: nat, a: nat, b: nat): nat {
    if n <= a then 0 else if n <= b then n - a else if a <= b then b - a else 0
  }

  /** How many of `s` have been sent. */
  ghost function SentCount(s: seq<Slice>): nat
    reads s`sent
  {
    if s == [] then 0 else SentCount(s[..|s| - 1]) + if s[|s| - 1].sent then 1 else 0
  }

  lemma {:induction false} SentCountPrefix(s: seq<Slice>, n: nat)
    requires SentPrefix(s, n)
    ensures SentCount(s) == n
  {
    if s != [] {
      SentCountPrefix(s[..|s| - 1], if n < |s| then n else n - 1);
    }
  }
}
