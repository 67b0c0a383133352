/** Value-level facts about sequences that several components share. */
module Sequences {

  ghost predicate Distinct<T>(s: seq<T>) {
    forall i, j :: 0 <= i < j < |s| ==> s[i] != s[j]
  }

  /** `s` with the element at `k` taken out. */
  ghost function Without<T>(s: seq<T>, k: nat): (r: seq<T>)
    requires k < |s|
    ensures |r| == |s| - 1
    ensures forall i :: 0 <= i < |r| ==> r[i] == if i < k then s[i] else s[i + 1]
  {
    s[..k] + s[k + 1..]
  }

  /** `s` with `x` put in at `k`. */
  ghost function With<T>(s: seq<T>, k: nat, x: T): (r: seq<T>)
    requires k <= |s|
    ensures |r| == |s| + 1
    ensures forall i :: 0 <= i < |r| ==> r[i] == if i < k then s[i] else if i == k then x else s[i - 1]
  {
    s[..k] + [x] + s[k..]
  }

  ghost predicate SameElements<T>(s: seq<T>, t: seq<T>) {
    (forall x :: x in s ==> x in t) && (forall x :: x in t ==> x in s)
  }

  /** `base` with `data` laid over it from `off` on. */
  function Splice<T>(base: seq<T>, off: nat, data: seq<T>): (r: seq<T>)
    requires off + |data| <= |base|
    ensures |r| == |base|
    ensures forall i :: 0 <= i < |r| ==> r[i] == if off <= i < off + |data| then data[i - off] else base[i]
  {
    base[..off] + data + base[off + |data|..]
  }

  lemma WithoutDistinct<T>(s: seq<T>, k: nat)
    requires k < |s| && Distinct(s)
    ensures Distinct(Without(s, k)) && s[k] !in Without(s, k)
    ensures forall x :: x in Without(s, k) <==> x in s && x != s[k]
  {
    forall x | x in s && x != s[k] ensures x in Without(s, k) {
      var i :| 0 <= i < |s| && s[i] == x;
      assert Without(s, k)[if i < k then i else i - 1] == x;
    }
  }

  lemma WithElements<T>(s: seq<T>, k: nat, x: T)
    requires k <= |s|
    ensures forall y :: y in With(s, k, x) <==> y in s || y == x
    ensures Distinct(s) && x !in s ==> Distinct(With(s, k, x))
  {
    assert With(s, k, x)[k] == x;
    forall y | y in s ensures y in With(s, k, x) {
      var i :| 0 <= i < |s| && s[i] == y;
      assert With(s, k, x)[if i < k then i else i + 1] == y;
    }
  }

  lemma DistinctConcat<T>(a: seq<T>, b: seq<T>)
    requires Distinct(a) && Distinct(b) && forall x :: x in a ==> x !in b
    ensures Distinct(a + b)
  {
    var c := a + b;
    forall i, j | 0 <= i < j < |c| ensures c[i] != c[j] {
      if i < |a| <= j {
        assert a[i] in a && b[j - |a|] in b;
      }
    }
  }

  /** Changes at the end or in the middle of `f[a..b]`, seen from the whole. */
  lemma GrowWithin<T>(f: seq<T>, a: nat, b: nat, x: T)
    requires a <= b <= |f|
    ensures f[..a] + (f[a..b] + [x]) + f[b..] == f[..b] + [x] + f[b..]
  {
    assert f[..b] == f[..a] + f[a..b];
  }

  lemma ShrinkWithin<T>(f: seq<T>, a: nat, b: nat, k: nat)
    requires a <= b <= |f| && k < b - a
    ensures f[..a] + Without(f[a..b], k) + f[b..] == f[..a + k] + f[a + k + 1..]
  {
    var l, r := f[..a] + Without(f[a..b], k) + f[b..], f[..a + k] + f[a + k + 1..];
    assert |l| == |r|;
    forall i | 0 <= i < |l| ensures l[i] == r[i] {
      assert l[i] == if i < a + k then f[i] else f[i + 1];
    }
  }

  lemma CutElements<T>(f: seq<T>, a: nat, b: nat)
    requires Distinct(f) && a <= b <= |f|
    ensures Distinct(f[..a] + f[b..])
    ensures forall x :: x in f[..a] + f[b..] ==> x in f && x !in f[a..b]
    ensures forall x :: x in f[a..b] ==> x in f
  {
    var g := f[..a] + f[b..];
    assert forall i :: 0 <= i < |g| ==> g[i] == f[if i < a then i else i + (b - a)];
  }
}
