/** The in-place random shuffle of a list of slices (btrequest.cpp, RequestQueue::Shuffle). */
module SliceShuffle {
  import opened Sequences
  import opened QueueSlices

  /** `s` is the list that hangs from `start`. */
  ghost predicate Hung(start: Slice, s: seq<Slice>)
    reads start`next, s`next
  {
    && start.next == At(s, 0)
    && (forall k {:trigger s[k].next} :: 0 <= k < |s| ==> s[k].next == At(s, k + 1))
  }

  /** The node before place `q`. */
  ghost function Before(start: Slice, s: seq<Slice>, q: nat): Slice
    requires q <= |s|
  {
    if q == 0 then start else s[q - 1]
  }

  ghost predicate Permutation(s: seq<Slice>, t: seq<Slice>) {
    multiset(s) == multiset(t)
  }

  lemma PermutationSame(s: seq<Slice>)
    ensures Permutation(s, s)
  {
  }

  lemma PermutationTrans(s: seq<Slice>, t: seq<Slice>, u: seq<Slice>)
    requires Permutation(s, t) && Permutation(t, u)
    ensures Permutation(s, u)
  {
  }

  lemma PermutationFacts(s: seq<Slice>, t: seq<Slice>)
    requires Permutation(s, t)
    ensures |s| == |t| && SameElements(s, t) && (Distinct(s) ==> Distinct(t))
  {
    assert |multiset(s)| == |multiset(t)|;
    forall x ensures x in s <==> x in t {
      assert x in multiset(s) <==> x in multiset(t);
    }
    if Distinct(s) {
      DistinctCounts(s);
      forall i, j | 0 <= i < j < |t| ensures t[i] != t[j] {
        assert t == t[..i] + [t[i]] + t[i + 1..j] + [t[j]] + t[j + 1..];
        assert t[i] in s && multiset(s)[t[i]] == multiset(t)[t[i]] <= 1;
      }
    }
  }

  lemma {:induction false} DistinctCounts(s: seq<Slice>)
    requires Distinct(s)
    ensures forall x :: x in s ==> multiset(s)[x] == 1
  {
    if s != [] {
      var last, rest := s[|s| - 1], s[..|s| - 1];
      assert s == rest + [last];
      DistinctCounts(rest);
    }
  }

  lemma PermutationWith(s: seq<Slice>, d: seq<Slice>, r: seq<Slice>, q: nat)
    requires Permutation(s, d + r) && r != [] && q <= |d|
    ensures Permutation(s, With(d, q, r[0]) + r[1..])
  {
    assert d == d[..q] + d[q..] && r == [r[0]] + r[1..];
    assert With(d, q, r[0]) == d[..q] + [r[0]] + d[q..];
  }

  /** Two parts that make up `s` share nothing. */
  lemma PartsApart(s: seq<Slice>, d: seq<Slice>, r: seq<Slice>)
    requires Distinct(s) && Permutation(s, d + r)
    ensures Distinct(d) && Distinct(r)
    ensures forall i :: 0 <= i < |d| ==> d[i] in s && d[i] !in r
    ensures forall i :: 0 <= i < |r| ==> r[i] in s && r[i] !in d
  {
    var t := d + r;
    PermutationFacts(s, t);
    hide Permutation;
    assert forall i :: 0 <= i < |d| ==> t[i] == d[i];
    assert forall i :: 0 <= i < |r| ==> t[|d| + i] == r[i];
    forall i, j | 0 <= i < |d| && 0 <= j < |r| ensures d[i] != r[j] {
      assert t[i] != t[|d| + j];
    }
  }

  /** Puts `x` at place `q` of the list. */
  method InsertAfter(start: Slice, pred: Slice, x: Slice, ghost d: seq<Slice>, ghost q: nat)
    requires Hung(start, d) && Distinct(d) && start !in d
    requires q <= |d| && pred == Before(start, d, q) && x !in d && x != start
    modifies pred`next, x`next
    ensures Hung(start, With(d, q, x))
  {
    x.next := pred.next;
    pred.next := x;
    ghost var e := With(d, q, x);
    forall k {:trigger e[k].next} | 0 <= k < |e| ensures e[k].next == At(e, k + 1) {
      assert k < q ==> e[k] == d[k];
      assert k > q ==> e[k] == d[k - 1];
    }
  }

  /** Takes the list apart and inserts each slice again: at the front, at the end, or next to the one before. */
  method Round(start: Slice, ghost s: seq<Slice>) returns (end: Slice, ghost t: seq<Slice>)
    requires Hung(start, s) && Distinct(s) && start !in s && s != []
    modifies start`next, s`next
    ensures Hung(start, t) && Permutation(s, t) && t != [] && end == t[|t| - 1]
  {
    hide Permutation;
    var prev, slice := start, start.next.next;
    end := start.next;
    start.next.next := null;
    ghost var r, p: nat := s[1..], 0;
    t := [end];
    assert s == t + r;
    PermutationSame(s);
    while slice != null
      invariant Hung(start, t) && t != [] && end == t[|t| - 1]
      invariant p < |t| && prev == Before(start, t, p)
      invariant slice == At(r, 0) && forall k {:trigger r[k].next} :: 0 <= k < |r| ==> r[k].next == At(r, k + 1)
      invariant Permutation(s, t + r)
      decreases |r|
    {
      PartsApart(s, t, r);
      end, prev, t, p, slice := RoundStep(start, s, t, r, p, end, prev, slice);
      r := r[1..];
    }
    assert r == [] && t + r == t;
  }

  /** Inserts one slice where the random bits say. */
  method RoundStep(start: Slice, ghost s: seq<Slice>, ghost d: seq<Slice>, ghost r: seq<Slice>, ghost p: nat,
                   end: Slice, prev: Slice, slice: Slice)
    returns (newEnd: Slice, newPrev: Slice, ghost e: seq<Slice>, ghost newP: nat, next: Slice?)
    requires Distinct(s) && start !in s && Permutation(s, d + r)
    requires Hung(start, d) && d != [] && end == d[|d| - 1] && p < |d| && prev == Before(start, d, p)
    requires r != [] && slice == r[0] && forall k {:trigger r[k].next} :: 0 <= k < |r| ==> r[k].next == At(r, k + 1)
    modifies start`next, d`next, r`next
    ensures Hung(start, e) && e != [] && newEnd == e[|e| - 1] && newP < |e| && newPrev == Before(start, e, newP)
    ensures next == At(r, 1) && forall k {:trigger r[k].next} :: 1 <= k < |r| ==> r[k].next == At(r, k + 1)
    ensures Permutation(s, e + r[1..])
  {
    hide Permutation;
    PartsApart(s, d, r);
    next := slice.next;
    newEnd := end;
    var extreme: bool := *;
    var after: bool := *;
    var pred;
    ghost var q: nat;
    if extreme {
      if after {
        pred, newPrev, q, newP := end, end, |d|, |d|;
        newEnd := slice;
      } else {
        pred, newPrev, q, newP := start, start, 0, 0;
      }
    } else {
      if after {
        if end == prev.next {
          newEnd := slice;
        }
        pred, newPrev, q, newP := prev.next, prev.next, p + 1, p + 1;
      } else {
        pred, newPrev, q, newP := prev, prev, p, p;
      }
    }
    InsertAfter(start, pred, slice, d, q);
    e := With(d, q, slice);
    PermutationWith(s, d, r, q);
  }

  /** Shuffles the list, at most nine times, and then makes sure that it starts with another slice than before. */
  method Shuffled(start: Slice, len: nat, firstoff: nat, ghost s: seq<Slice>) returns (ghost t: seq<Slice>)
    requires Hung(start, s) && Distinct(s) && start !in s && len == |s| > 1 && firstoff == s[0].offset
    modifies start`next, s`next
    ensures Hung(start, t) && Permutation(s, t)
    ensures OffsetsDiffer(s) ==> t[0].offset != firstoff
  {
    var shuffle: nat :| 2 <= shuffle <= 9;
    hide Permutation;
    PermutationSame(s);
    if shuffle > len / 2 {
      shuffle := len / 2;
    }
    t := s;
    var end: Slice? := null;
    while shuffle > 0
      invariant Hung(start, t) && Permutation(s, t) && t != []
      invariant shuffle == 0 ==> end == t[|t| - 1]
      decreases shuffle
    {
      PermutationFacts(s, t);
      assert forall i :: 0 <= i < |t| ==> t[i] in s;
      ghost var u;
      end, u := Round(start, t);
      PermutationTrans(s, t, u);
      t := u;
      shuffle := shuffle - 1;
    }
    PermutationFacts(s, t);
    assert forall i :: 0 <= i < |t| ==> t[i] in s;
    OtherFirst(s, t);
    if start.next.offset == firstoff {
      end := Rotate(start, end, t);
      t := t[1..] + [t[0]];
    }
  }

  /** The first slice of the list goes to its end. */
  method Rotate(start: Slice, end: Slice, ghost t: seq<Slice>) returns (newEnd: Slice)
    requires Hung(start, t) && Distinct(t) && start !in t && |t| > 1 && end == t[|t| - 1]
    modifies start`next, t`next
    ensures Hung(start, t[1..] + [t[0]]) && newEnd == t[0]
  {
    var first := start.next;
    end.next := first;
    start.next := first.next;
    newEnd := end.next;
    newEnd.next := null;
    ghost var u := t[1..] + [t[0]];
    assert forall k :: 0 <= k < |u| ==> u[k] == if k < |t| - 1 then t[k + 1] else t[0];
  }

  /** If a rearranged list starts with the same offset as before, then its second slice has another. */
  lemma OtherFirst(s: seq<Slice>, t: seq<Slice>)
    requires Permutation(s, t) && Distinct(s) && |s| > 1
    ensures Permutation(s, t[1..] + [t[0]])
    ensures OffsetsDiffer(s) ==>
      t[0].offset != s[0].offset || t[1].offset != s[0].offset
  {
    PermutationFacts(s, t);
    assert t == [t[0]] + t[1..];
    assert t[0] in s && t[1] in s && t[0] != t[1];
  }
}
