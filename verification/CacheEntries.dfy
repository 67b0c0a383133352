/** Cache entries (BTCACHE, btcontent.h), the two lists that hold them, and what they mean as bytes. */
module CacheEntries {
  import opened Bytes
  import opened Pieces
  import opened Sequences

  /** A BTCACHE node: a byte range, its data, and its links in the piece list and in the age list. */
  class Entry {
    const off: nat
    const len: nat
    var flush: bool
    var buf: seq<byte>
    var next: Entry?
    var prev: Entry?
    var ageNext: Entry?
    var agePrev: Entry?

    constructor (off: nat, buf: seq<byte>, flush: bool)
      ensures this.off == off && this.len == |buf| && this.buf == buf && this.flush == flush
    {
      this.off, this.len, this.buf, this.flush := off, |buf|, buf, flush;
      next, prev, ageNext, agePrev := null, null, null, null;
    }

    predicate Covers(i: int) {
      off <= i < off + len
    }

    /** The test CACHE_FIT: does the entry overlap [roff, roff+rlen)? */
    predicate Fits(roff: nat, rlen: nat) {
      (if off > roff then off else roff)
      <= (if off + len - 1 < roff + rlen - 1 then off + len - 1 else roff + rlen - 1)
    }
  }

  function At(s: seq<Entry>, i: int): Entry? {
    if 0 <= i < |s| then s[i] else null
  }

  /** `s` is the list that starts at `h`, with right forward and back links. */
  ghost predicate Linked(s: seq<Entry>, h: Entry?)
    reads s`next, s`prev
  {
    && h == At(s, 0)
    && (forall k {:trigger s[k].prev} :: 0 <= k < |s| ==> s[k].prev == At(s, k - 1))
    && (forall k {:trigger s[k].next} :: 0 <= k < |s| ==> s[k].next == At(s, k + 1))
  }

  /** `s` is the age list from `h`, the oldest, to `t`, the newest, with right links both ways. */
  ghost predicate Aged(s: seq<Entry>, h: Entry?, t: Entry?)
    reads s`ageNext, s`agePrev
  {
    && h == At(s, 0) && t == At(s, |s| - 1)
    && (forall i {:trigger s[i].agePrev} :: 0 <= i < |s| ==> s[i].agePrev == At(s, i - 1))
    && (forall i {:trigger s[i].ageNext} :: 0 <= i < |s| ==> s[i].ageNext == At(s, i + 1))
  }

  ghost predicate Ascending(s: seq<Entry>) {
    forall i, j :: 0 <= i < j < |s| ==> s[i].off + s[i].len <= s[j].off
  }

  /** The piece lists: each ascending, each entry in the list of the piece its offset lies in. */
  ghost predicate Sorted(lists: seq<seq<Entry>>, pieceLength: pos)
  {
    && (forall i :: 0 <= i < |lists| ==> Distinct(lists[i]) && Ascending(lists[i]))
    && (forall i, e :: 0 <= i < |lists| && e in lists[i] ==> PieceOf(e.off, pieceLength) == i)
  }

  lemma SortedWithout(lists: seq<seq<Entry>>, pieceLength: pos, i: nat, k: nat)
    requires Sorted(lists, pieceLength)
    requires i < |lists| && k < |lists[i]|
    ensures Sorted(lists[i := Without(lists[i], k)], pieceLength)
  {
    WithoutDistinct(lists[i], k);
    assert Ascending(Without(lists[i], k));
  }

  /** The age list after `e` is made the newest. */
  ghost function Renewed(age: seq<Entry>, e: Entry): seq<Entry>
    requires e in age
  {
    var k :| 0 <= k < |age| && age[k] == e;
    Without(age, k) + [e]
  }

  /** The first `j` of `s` are the newest end of the age list. */
  ghost predicate IsNewest(age: seq<Entry>, s: seq<Entry>, j: nat) {
    j <= |s| && j <= |age| && age[|age| - j..] == s[..j]
  }

  lemma RenewedSuffix(age: seq<Entry>, s: seq<Entry>, j: nat)
    requires Distinct(s) && j < |s| && s[j] in age && IsNewest(age, s, j)
    ensures IsNewest(Renewed(age, s[j]), s, j + 1)
  {
    var k :| 0 <= k < |age| && age[k] == s[j] && Renewed(age, s[j]) == Without(age, k) + [s[j]];
    forall m | |age| - j <= m < |age| ensures age[m] != s[j] {
      assert age[m] == age[|age| - j..][m - (|age| - j)] == s[..j][m - (|age| - j)];
    }
    assert Renewed(age, s[j])[|age| - j - 1..] == age[|age| - j..] + [s[j]];
    assert s[..j + 1] == s[..j] + [s[j]];
  }

  ghost predicate Apart(e: Entry, f: Entry) {
    e.off + e.len <= f.off || f.off + f.len <= e.off
  }

  ghost predicate Disjoint(s: set<Entry>) {
    forall e, f {:trigger Apart(e, f)} :: e in s && f in s && e != f ==> Apart(e, f)
  }

  /** The age list and the piece lists both hold exactly `nodes`. */
  ghost predicate Members(age: seq<Entry>, lists: seq<seq<Entry>>, nodes: set<Entry>, pieceLength: pos)
  {
    && (forall e :: e in age ==> e in nodes)
    && (forall e :: e in nodes ==>
         e in age && PieceOf(e.off, pieceLength) < |lists| && e in lists[PieceOf(e.off, pieceLength)])
  }

  lemma MembersWithout(age: seq<Entry>, lists: seq<seq<Entry>>, nodes: set<Entry>, pieceLength: pos, i: nat, j: nat, k: nat)
    requires Distinct(age) && Sorted(lists, pieceLength) && Members(age, lists, nodes, pieceLength)
    requires k < |age| && i < |lists| && j < |lists[i]| && age[k] == lists[i][j]
    ensures Members(Without(age, k), lists[i := Without(lists[i], j)], nodes - {age[k]}, pieceLength)
  {
    hide PieceOf;
    WithoutDistinct(age, k);
    WithoutDistinct(lists[i], j);
  }

  ghost function Total(s: seq<Entry>): nat {
    if s == [] then 0 else s[0].len + Total(s[1..])
  }

  lemma {:induction false} TotalConcat(s: seq<Entry>, t: seq<Entry>)
    ensures Total(s + t) == Total(s) + Total(t)
  {
    if s == [] {
      assert s + t == t;
    } else {
      assert (s + t)[1..] == s[1..] + t;
      TotalConcat(s[1..], t);
    }
  }

  lemma {:induction false} TotalWithout(s: seq<Entry>, k: nat)
    requires k < |s|
    ensures Total(s) == Total(Without(s, k)) + s[k].len
  {
    if k == 0 {
      assert Without(s, 0) == s[1..];
    } else {
      TotalWithout(s[1..], k - 1);
      assert Without(s, k)[1..] == Without(s[1..], k - 1);
    }
  }

  lemma TotalAppend(s: seq<Entry>, e: Entry)
    ensures Total(s + [e]) == Total(s) + e.len
  {
    TotalConcat(s, [e]);
  }

  /** The two arrays differ at most in [lo, hi). */
  ghost predicate SameOutside(a: seq<byte>, b: seq<byte>, lo: nat, hi: nat) {
    |a| == |b| && forall i :: 0 <= i < |a| && !(lo <= i < hi) ==> a[i] == b[i]
  }

  lemma SameOutsideChain(a: seq<byte>, b: seq<byte>, c: seq<byte>, lo: nat, hi: nat, lo': nat, hi': nat)
    requires SameOutside(a, b, lo, hi) && SameOutside(b, c, lo', hi') && lo <= lo' && hi' <= hi
    ensures SameOutside(a, c, lo, hi)
  {
  }

  /** No entry holds a byte of [off, off+len). */
  ghost predicate Uncovered(nodes: set<Entry>, off: nat, len: nat) {
    forall e :: e in nodes ==> e.off + e.len <= off || off + len <= e.off
  }

  lemma SortedWith(lists: seq<seq<Entry>>, pieceLength: pos, nodes: set<Entry>, i: nat, k: nat, e: Entry)
    requires Sorted(lists, pieceLength)
    requires i < |lists| && k <= |lists[i]| && PieceOf(e.off, pieceLength) == i && 0 < e.len
    requires forall f :: f in lists[i] ==> f in nodes && 0 < f.len
    requires Uncovered(nodes, e.off, e.len) && e !in nodes
    requires forall j :: 0 <= j < k ==> lists[i][j].off < e.off
    requires forall j :: k <= j < |lists[i]| ==> e.off < lists[i][j].off
    ensures Sorted(lists[i := With(lists[i], k, e)], pieceLength)
  {
    hide PieceOf, Ascending;
    WithElements(lists[i], k, e);
    forall j | 0 <= j < |lists[i]| ensures if j < k then lists[i][j].off + lists[i][j].len <= e.off else e.off + e.len <= lists[i][j].off {
      assert lists[i][j] in lists[i];
    }
    AscendingWith(lists[i], k, e);
  }

  lemma AscendingWith(s: seq<Entry>, k: nat, e: Entry)
    requires Ascending(s) && k <= |s|
    requires forall j :: 0 <= j < |s| ==> if j < k then s[j].off + s[j].len <= e.off else e.off + e.len <= s[j].off
    ensures Ascending(With(s, k, e))
  {
  }

  lemma MembersWith(age: seq<Entry>, lists: seq<seq<Entry>>, nodes: set<Entry>, pieceLength: pos, i: nat, k: nat, e: Entry)
    requires Members(age, lists, nodes, pieceLength)
    requires i < |lists| && k <= |lists[i]| && PieceOf(e.off, pieceLength) == i
    ensures Members(age + [e], lists[i := With(lists[i], k, e)], nodes + {e}, pieceLength)
  {
    hide PieceOf;
    WithElements(lists[i], k, e);
  }

  /** Ascending entries inside [lo, hi) hold no more bytes than that. */
  lemma {:induction false} TotalBound(s: seq<Entry>, lo: nat, hi: nat)
    requires Ascending(s) && lo <= hi
    requires forall i :: 0 <= i < |s| ==> lo <= s[i].off && s[i].off + s[i].len <= hi
    ensures Total(s) <= hi - lo
  {
    if s != [] {
      TotalBound(s[1..], s[0].off + s[0].len, hi);
    }
  }

  ghost predicate DirtyAt(nodes: set<Entry>, i: int)
    reads nodes`flush
  {
    exists e :: e in nodes && e.flush && e.Covers(i)
  }

  /** `flat` is the cache laid over the disk, and every clean entry agrees with the disk. */
  ghost predicate Coherent(nodes: set<Entry>, disk: seq<byte>, flat: seq<byte>)
    reads nodes`flush, nodes`buf
  {
    && |flat| == |disk|
    && (forall e {:trigger e.buf} {:trigger e in nodes} :: e in nodes ==> e.off + e.len <= |flat| && e.buf == flat[e.off..e.off + e.len])
    && (forall i :: 0 <= i < |flat| && disk[i] != flat[i] ==> DirtyAt(nodes, i))
  }

  lemma CoherentDrop(nodes: set<Entry>, p: Entry, disk: seq<byte>, flat: seq<byte>)
    requires Coherent(nodes, disk, flat) && !p.flush
    ensures Coherent(nodes - {p}, disk, flat)
  {
    forall i | 0 <= i < |flat| && disk[i] != flat[i] ensures DirtyAt(nodes - {p}, i) {
      assert DirtyAt(nodes, i);
      var e :| e in nodes && e.flush && e.Covers(i);
      assert e in nodes - {p};
    }
  }

  /** What no entry covers is right on disk. */
  lemma UncoveredOnDisk(nodes: set<Entry>, disk: seq<byte>, flat: seq<byte>, off: nat, len: nat)
    requires Coherent(nodes, disk, flat) && Uncovered(nodes, off, len) && off + len <= |disk|
    ensures disk[off..off + len] == flat[off..off + len]
  {
    forall i | off <= i < off + len ensures disk[i] == flat[i] {
      assert forall e :: e in nodes ==> !e.Covers(i);
      assert !DirtyAt(nodes, i);
    }
  }

  lemma CoherentAddClean(nodes: set<Entry>, e: Entry, disk: seq<byte>, flat: seq<byte>)
    requires Coherent(nodes, disk, flat) && Uncovered(nodes, e.off, e.len) && e.off + e.len <= |disk|
    requires e !in nodes && !e.flush && e.buf == disk[e.off..e.off + e.len]
    ensures Coherent(nodes + {e}, disk, flat)
  {
    UncoveredOnDisk(nodes, disk, flat, e.off, e.len);
    forall i | 0 <= i < |flat| && disk[i] != flat[i] ensures DirtyAt(nodes + {e}, i) {
      assert DirtyAt(nodes, i);
      var f :| f in nodes && f.flush && f.Covers(i);
      assert f in nodes + {e};
    }
  }

  lemma CoherentAddDirty(nodes: set<Entry>, e: Entry, disk: seq<byte>, flat: seq<byte>)
    requires Coherent(nodes, disk, flat) && Uncovered(nodes, e.off, e.len) && e.off + e.len <= |disk|
    requires e !in nodes && e.flush && |e.buf| == e.len
    ensures Coherent(nodes + {e}, disk, Splice(flat, e.off, e.buf))
  {
    var flat' := Splice(flat, e.off, e.buf);
    forall f | f in nodes ensures f.buf == flat'[f.off..f.off + f.len] {
      assert f.buf == flat[f.off..f.off + f.len];
    }
    forall i | 0 <= i < |flat'| && disk[i] != flat'[i] ensures DirtyAt(nodes + {e}, i) {
      if e.Covers(i) {
        assert e in nodes + {e};
      } else {
        assert DirtyAt(nodes, i);
        var f :| f in nodes && f.flush && f.Covers(i);
        assert f in nodes + {e};
      }
    }
  }

  /** Writing past the cache, to a range no entry covers. */
  lemma CoherentWriteThrough(nodes: set<Entry>, disk: seq<byte>, flat: seq<byte>, off: nat, data: seq<byte>)
    requires Coherent(nodes, disk, flat) && Uncovered(nodes, off, |data|) && off + |data| <= |disk|
    ensures Coherent(nodes, Splice(disk, off, data), Splice(flat, off, data))
  {
    var disk', flat' := Splice(disk, off, data), Splice(flat, off, data);
    forall f | f in nodes ensures f.buf == flat'[f.off..f.off + f.len] {
      assert f.buf == flat[f.off..f.off + f.len];
    }
    forall i | 0 <= i < |flat'| && disk'[i] != flat'[i] ensures DirtyAt(nodes, i) {
      assert disk[i] != flat[i];
    }
  }

  /** `Coherent`, except for what `p` covers. */
  ghost predicate CoherentBut(nodes: set<Entry>, p: Entry, disk: seq<byte>, flat: seq<byte>)
    reads (nodes - {p})`flush, (nodes - {p})`buf
  {
    && |flat| == |disk|
    && (forall e :: e in nodes - {p} ==> e.off + e.len <= |flat| && e.buf == flat[e.off..e.off + e.len])
    && (forall i :: 0 <= i < |flat| && !p.Covers(i) && disk[i] != flat[i] ==> DirtyAt(nodes - {p}, i))
  }

  /** Changing disk and flat array where `p` is keeps everything else right. */
  lemma CoherentOpen(nodes: set<Entry>, p: Entry, disk: seq<byte>, disk': seq<byte>, flat: seq<byte>, flat': seq<byte>)
    requires Coherent(nodes, disk, flat) && Disjoint(nodes) && p in nodes
    requires forall e :: e in nodes ==> 0 < e.len
    requires SameOutside(disk, disk', p.off, p.off + p.len) && SameOutside(flat, flat', p.off, p.off + p.len)
    ensures CoherentBut(nodes, p, disk', flat')
  {
    forall e | e in nodes - {p} ensures e.buf == flat'[e.off..e.off + e.len] {
      assert e.buf == flat[e.off..e.off + e.len];
      assert Apart(e, p);
    }
    forall i | 0 <= i < |flat'| && !p.Covers(i) && disk'[i] != flat'[i] ensures DirtyAt(nodes - {p}, i) {
      assert DirtyAt(nodes, i);
      var e :| e in nodes && e.flush && e.Covers(i);
      assert e in nodes - {p};
    }
  }

  lemma CoherentAt(nodes: set<Entry>, p: Entry, disk: seq<byte>, flat: seq<byte>)
    requires Coherent(nodes, disk, flat) && p in nodes
    ensures p.off + p.len <= |flat| && p.buf == flat[p.off..p.off + p.len]
  {
  }

  lemma CoherentClose(nodes: set<Entry>, p: Entry, disk: seq<byte>, flat: seq<byte>)
    requires CoherentBut(nodes, p, disk, flat) && p in nodes
    requires p.off + p.len <= |flat| && p.buf == flat[p.off..p.off + p.len]
    requires p.flush || disk[p.off..p.off + p.len] == p.buf
    ensures Coherent(nodes, disk, flat)
  {
    if !p.flush {
      forall i | p.Covers(i) ensures disk[i] == flat[i] {
        assert disk[i] == disk[p.off..p.off + p.len][i - p.off];
      }
    }
    forall i | 0 <= i < |flat| && disk[i] != flat[i] ensures DirtyAt(nodes, i) {
      if !p.Covers(i) {
        assert DirtyAt(nodes - {p}, i);
        var e :| e in nodes - {p} && e.flush && e.Covers(i);
      }
    }
  }

  /** The byte at `i` of the cache laid over the disk. */
  ghost function OverlayAt(nodes: set<Entry>, disk: seq<byte>, i: nat): byte
    requires i < |disk| && forall e :: e in nodes ==> |e.buf| == e.len
    reads nodes`buf
  {
    if exists e :: e in nodes && e.Covers(i) then
      var e :| e in nodes && e.Covers(i);
      e.buf[i - e.off]
    else disk[i]
  }

  /** `Coherent` says exactly that `flat` is the overlay and that clean entries repeat the disk. */
  lemma CoherentIffOverlay(nodes: set<Entry>, disk: seq<byte>, flat: seq<byte>)
    requires Disjoint(nodes) && |flat| == |disk|
    requires forall e :: e in nodes ==> 0 < e.len == |e.buf| && e.off + e.len <= |disk|
    ensures Coherent(nodes, disk, flat) <==>
      && (forall i :: 0 <= i < |flat| ==> flat[i] == OverlayAt(nodes, disk, i))
      && (forall e :: e in nodes && !e.flush ==> e.buf == disk[e.off..e.off + e.len])
  {
    if Coherent(nodes, disk, flat) {
      forall i | 0 <= i < |flat| ensures flat[i] == OverlayAt(nodes, disk, i) {
        assert disk[i] != flat[i] ==> DirtyAt(nodes, i);
      }
      forall e | e in nodes && !e.flush ensures e.buf == disk[e.off..e.off + e.len] {
        forall i | e.off <= i < e.off + e.len ensures disk[i] == flat[i] {
          forall f | f in nodes && f.flush ensures !f.Covers(i) { assert Apart(e, f); }
          assert !DirtyAt(nodes, i);
        }
      }
    }
    if (forall i :: 0 <= i < |flat| ==> flat[i] == OverlayAt(nodes, disk, i))
       && (forall e :: e in nodes && !e.flush ==> e.buf == disk[e.off..e.off + e.len]) {
      OverlayCoherent(nodes, disk, flat);
    }
  }

  lemma OverlayCoherent(nodes: set<Entry>, disk: seq<byte>, flat: seq<byte>)
    requires Disjoint(nodes) && |flat| == |disk|
    requires forall e :: e in nodes ==> 0 < e.len == |e.buf| && e.off + e.len <= |disk|
    requires forall i :: 0 <= i < |flat| ==> flat[i] == OverlayAt(nodes, disk, i)
    requires forall e :: e in nodes && !e.flush ==> e.buf == disk[e.off..e.off + e.len]
    ensures Coherent(nodes, disk, flat)
  {
    forall e | e in nodes ensures e.buf == flat[e.off..e.off + e.len] {
      forall i | e.off <= i < e.off + e.len ensures flat[i] == e.buf[i - e.off] {
        assert e.Covers(i);
        var f :| f in nodes && f.Covers(i) && OverlayAt(nodes, disk, i) == f.buf[i - f.off];
        assert e == f || Apart(e, f);
      }
    }
    forall i | 0 <= i < |flat| ensures disk[i] == flat[i] || DirtyAt(nodes, i) {
      if exists e :: e in nodes && e.Covers(i) {
        var f :| f in nodes && f.Covers(i) && OverlayAt(nodes, disk, i) == f.buf[i - f.off];
        if !f.flush { assert disk[i] == disk[f.off..f.off + f.len][i - f.off]; }
      }
    }
  }

  ghost predicate OnePiece(e: Entry, pieceLength: pos) {
    forall i: nat :: e.Covers(i) ==> PieceOf(i, pieceLength) == PieceOf(e.off, pieceLength)
  }

  /** The flat array once piece `idx` holds only what is on disk. */
  ghost function Reverted(flat: seq<byte>, disk: seq<byte>, idx: nat, pieceLength: pos): (r: seq<byte>)
    requires |flat| == |disk|
    ensures |r| == |flat|
    ensures forall i :: 0 <= i < |r| ==> r[i] == if PieceOf(i, pieceLength) == idx then disk[i] else flat[i]
  {
    seq(|flat|, i requires 0 <= i < |flat| => if PieceOf(i, pieceLength) == idx then disk[i] else flat[i])
  }

  lemma CoherentReverted(nodes: set<Entry>, disk: seq<byte>, flat: seq<byte>, idx: nat, pieceLength: pos)
    requires Coherent(nodes, disk, flat) && forall e :: e in nodes ==> OnePiece(e, pieceLength)
    ensures Coherent((set e | e in nodes && PieceOf(e.off, pieceLength) != idx), disk, Reverted(flat, disk, idx, pieceLength))
  {
    hide PieceOf;
    var left := set e | e in nodes && PieceOf(e.off, pieceLength) != idx;
    var reverted := Reverted(flat, disk, idx, pieceLength);
    forall e | e in left ensures e.buf == reverted[e.off..e.off + e.len] {
      assert OnePiece(e, pieceLength);
      assert e.buf == flat[e.off..e.off + e.len];
      assert forall i: nat :: e.off <= i < e.off + e.len ==> e.Covers(i) && reverted[i] == flat[i];
    }
    forall i: nat | i < |reverted| && disk[i] != reverted[i] ensures DirtyAt(left, i) {
      assert DirtyAt(nodes, i);
      var e :| e in nodes && e.flush && e.Covers(i);
      assert OnePiece(e, pieceLength);
      assert e in left;
    }
  }

  /** Take `p` out of an age list; returns its new ends. */
  method AgeOut(p: Entry, ghost s: seq<Entry>, h: Entry?, t: Entry?, ghost k: nat) returns (oldest: Entry?, newest: Entry?)
    requires Aged(s, h, t) && Distinct(s) && k < |s| && s[k] == p
    modifies s`ageNext, s`agePrev
    ensures Aged(Without(s, k), oldest, newest)
    ensures p.ageNext == old(p.ageNext)
  {
    oldest, newest := h, t;
    if h == p { oldest := p.ageNext; } else { p.agePrev.ageNext := p.ageNext; }
    if t == p { newest := p.agePrev; } else { p.ageNext.agePrev := p.agePrev; }
  }

  /** Put `p` at the newest end of an age list; returns its new oldest entry. */
  method AgeIn(p: Entry, ghost s: seq<Entry>, h: Entry?, t: Entry?) returns (oldest: Entry?)
    requires Aged(s, h, t) && Distinct(s) && p !in s
    modifies s`ageNext, p`ageNext, p`agePrev
    ensures Aged(s + [p], oldest, p)
  {
    oldest := h;
    p.ageNext := null;
    if t != null {
      p.agePrev := t;
      t.ageNext := p;
    } else {
      p.agePrev := null;
      oldest := p;
    }
  }

  /** Link `e` between `pp` and `p`; returns the first of the list. */
  method JoinBetween(e: Entry, pp: Entry?, p: Entry?, ghost s: seq<Entry>, h: Entry?, ghost k: nat) returns (first: Entry?)
    requires Linked(s, h) && Distinct(s) && k <= |s| && pp == At(s, k - 1) && p == At(s, k) && e !in s
    requires forall j :: k <= j < |s| ==> e.off < s[j].off
    requires forall j :: 0 <= j < k ==> s[j].off < e.off
    modifies s`next, s`prev, e`next, e`prev
    ensures Linked(With(s, k, e), first)
  {
    first := h;
    e.next := p;
    e.prev := pp;
    if pp != null { pp.next := e; }
    if p != null { p.prev := e; }
    if h == null || e.off < h.off { first := e; }
  }

  /** Make the neighbours of `p` point past it; returns the first of the list that is left. */
  method JoinNeighbours(p: Entry, ghost s: seq<Entry>, h: Entry?, ghost k: nat) returns (first: Entry?)
    requires Linked(s, h) && Distinct(s) && k < |s| && s[k] == p
    modifies s`next, s`prev
    ensures Linked(Without(s, k), first)
    ensures p.next == old(p.next)
  {
    first := h;
    if p.prev != null { p.prev.next := p.next; } else { first := p.next; }
    if p.next != null { p.next.prev := p.prev; }
  }
}
