/** The write-back slice cache in front of the torrent data (btcontent.cpp). */
module SliceCache {
  import opened Bytes
  import opened Pieces
  import opened Sequences
  import opened CacheEntries

  /** What CacheIO is asked to do: read a range, for a caller's buffer or for the cache only, or store bytes. */
  datatype Request = Fetch(want: bool) | Store(data: seq<byte>)

  const RETRY_INTERVAL: nat := 300

  datatype Op =
    | Write(buf: seq<byte>, idx: nat, off: nat)
    | Read(want: bool, idx: nat, off: nat, len: nat)
    | Clean(need: nat, spare: nat)
    | Prep(idx: nat)
    | Flush(idx: nat)
    | FlushAll
    | Configure(size: nat)     // a new cache size from CacheEval
    | Complete(idx: nat)       // the piece passed its hash check
    | Tick(now: nat)

  /** What a run of operations does to a flat array of bytes, and what its wanted reads return. */
  function Replay(ops: seq<Op>, flat: seq<byte>, pieceLength: pos): (r: (seq<byte>, seq<seq<byte>>))
    ensures |r.0| == |flat|
  {
    if ops == [] then (flat, [])
    else
      var (before, outs) := Replay(ops[..|ops| - 1], flat, pieceLength);
      match ops[|ops| - 1]
      case Write(buf, idx, off) =>
        var at := idx * pieceLength + off;
        (if at + |buf| <= |flat| then Splice(before, at, buf) else before, outs)
      case Read(want, idx, off, len) =>
        var at := idx * pieceLength + off;
        (before, if want && at + len <= |flat| then outs + [before[at..at + len]] else outs)
      case _ => (before, outs)
  }

  /** Which entries there are, in the order of their age, which of them are dirty, and how many bytes they have. */
  datatype Cached = Cached(nodes: set<Entry>, age: seq<Entry>, newest: Entry?, dirty: set<Entry>, used: nat, size: nat)

  ghost predicate CachedAt(nodes: set<Entry>, i: nat) {
    exists e :: e in nodes && e.Covers(i)
  }

  /** No entry has gone, what is new is in the range, and all of the range is cached. */
  ghost predicate Grown(was: set<Entry>, now: set<Entry>, start: nat, end: nat) {
    && was <= now
    && (forall e :: e in now && e !in was ==> start <= e.off && e.off + e.len <= end)
    && (forall i :: start <= i < end ==> CachedAt(now, i))
  }

  /** One entry has all of a range that is not empty. */
  predicate Whole(e: Entry, start: nat, end: nat) {
    e.off <= start < end <= e.off + e.len
  }

  /** What a read of [start, end) has made of `s0` when it has got to `at`, when ranges from `big` on bypass the cache.
      A range that one entry has brings nothing in, and a prefetch makes that entry the newest. One that is not cached at
      all becomes the newest entry, and clean. If there is room, nothing goes and the range is cached then. In any case the
      byte before `at` is, and a prefetch has it in the newest entry. */
  ghost predicate Served(want: bool, big: nat, s0: Cached, s: Cached, start: nat, at: nat, end: nat)
    requires start <= at <= end
  {
    && (at == start ==> s == s0)
    && (start < at && end - start < big ==>
      && CachedAt(s.nodes, at - 1)
      && (!want ==> s.newest != null && s.newest in s.nodes && s.newest.Covers(at - 1)))
    && (end - start < big && s0.used + (end - start) <= s0.size ==>
      Grown(s0.nodes, s.nodes, start, at) && s.dirty == s0.dirty && s.size == s0.size && s.used <= s0.used + (at - start))
    && (forall p :: p in s0.nodes && Whole(p, start, end) && start < at ==>
      && at == end && p in s0.age && s.nodes == s0.nodes && s.dirty == s0.dirty && s.used == s0.used && s.size == s0.size
      && s.age == if want then s0.age else Renewed(s0.age, p))
    && (Uncovered(s0.nodes, start, end - start) && start < at && end - start < big ==>
      at == end && s.newest != null && s.newest in s.nodes && s.newest.off == start && s.newest.len == end - start && s.newest !in s.dirty)
  }

  /** What a read of [start, end) makes of the cache. If the range is shorter than `big`: one that is not cached at all becomes the
      newest entry, and clean; if there is room, nothing goes, nothing gets dirty, and all of the range is cached then; its
      last byte is cached in any case, and after a prefetch it is so in the newest entry. If a single entry has the range,
      nothing changes but that a prefetch makes that entry the newest. */
  ghost predicate ReadFits(want: bool, big: nat, s0: Cached, s: Cached, start: nat, end: nat)
    requires start <= end
  {
    && (Uncovered(s0.nodes, start, end - start) && 0 < end - start < big ==>
      s.newest != null && s.newest in s.nodes && s.newest.off == start && s.newest.len == end - start && s.newest !in s.dirty)
    && (end - start < big && s0.used + (end - start) <= s0.size ==>
      Grown(s0.nodes, s.nodes, start, end) && s.dirty == s0.dirty && s.size == s0.size)
    && (0 < end - start < big ==> CachedAt(s.nodes, end - 1))
    && (0 < end - start < big && !want ==> s.newest != null && s.newest in s.nodes && s.newest.Covers(end - 1))
    && (forall p :: p in s0.nodes && Whole(p, start, end) ==>
      && p in s0.age && s.nodes == s0.nodes && s.dirty == s0.dirty && s.used == s0.used && s.size == s0.size
      && s.age == if want then s0.age else Renewed(s0.age, p))
  }

  lemma ServedFits(want: bool, big: nat, s0: Cached, s: Cached, start: nat, end: nat)
    requires start <= end && Served(want, big, s0, s, start, end, end)
    ensures ReadFits(want, big, s0, s, start, end)
  {
    hide Renewed;
  }

  /** The next part is in entry `p`. */
  lemma ServedHit(want: bool, big: nat, s0: Cached, s1: Cached, s2: Cached, start: nat, at: nat, end: nat, p: Entry, len2: nat)
    requires start <= at && 0 < len2 && at + len2 <= end && Served(want, big, s0, s1, start, at, end) && Disjoint(s1.nodes)
    requires p in s1.nodes && p.off <= at < p.off + p.len && p in s1.age
    requires len2 == if p.off + p.len - at > end - at then end - at else p.off + p.len - at
    requires s2 == s1.(age := if want then s1.age else Renewed(s1.age, p), newest := s2.newest) && (!want ==> s2.newest == p)
    ensures Served(want, big, s0, s2, start, at + len2, end)
  {
    hide Renewed;
    forall i | at <= i < at + len2 ensures CachedAt(s1.nodes, i) {
      assert p.Covers(i);
    }
    if at == start {
      assert !(p.off + p.len <= start || end <= p.off);
      forall q | q in s0.nodes && Whole(q, start, end) ensures q == p {
        assert !Apart(p, q);
      }
    }
  }

  /** The next part is not cached, and becomes an entry if it does not bypass the cache. */
  lemma ServedGap(want: bool, big: nat, s0: Cached, s1: Cached, s2: Cached, start: nat, at: nat, end: nat, len2: nat)
    requires start <= at && 0 < len2 && at + len2 <= end && Served(want, big, s0, s1, start, at, end)
    requires Uncovered(s1.nodes, at, len2) && (Uncovered(s0.nodes, start, end - start) && at == start ==> at + len2 == end)
    requires len2 < big ==>
      s2.newest != null && s2.newest in s2.nodes && s2.newest.off == at && s2.newest.len == len2 && s2.newest !in s2.dirty
    requires len2 < big && s1.used + len2 <= s1.size ==>
      s2.nodes == s1.nodes + {s2.newest} && s2.dirty == s1.dirty && s2.used == s1.used + len2 && s2.size == s1.size
    ensures Served(want, big, s0, s2, start, at + len2, end)
  {
    hide Renewed;
    if len2 < big {
      forall i | at <= i < at + len2 ensures CachedAt(s2.nodes, i) {
        assert s2.newest.Covers(i);
      }
      forall i | start <= i < at && s1.nodes <= s2.nodes && CachedAt(s1.nodes, i) ensures CachedAt(s2.nodes, i) {
        var e :| e in s1.nodes && e.Covers(i);
        assert e in s2.nodes;
      }
    }
    if at == start {
      forall q | q in s0.nodes ensures !Whole(q, start, end) {
        assert q.off + q.len <= at || at + len2 <= q.off;
      }
    }
  }

  class Cache {
    const pieceLength: pos
    const total: nat                 // bytes in the torrent
    const cfgSize: pos               // configured cache limit, in MB
    const head: array<Entry?>        // m_cache, one list per piece
    var oldest: Entry?
    var newest: Entry?
    var size: nat
    var used: nat
    var flushFailed: bool
    var flushTried: nat
    var now: nat
    var boost: nat                   // growth of the cache at a failed write
    var have: set<nat>               // pBF, the complete pieces
    var disk: seq<byte>
    ghost var age: seq<Entry>        // the age list, oldest first
    ghost var lists: seq<seq<Entry>> // the piece lists
    ghost var nodes: set<Entry>      // the entries of the cache
    ghost var flat: seq<byte>        // what the cache laid over the disk holds
    ghost var failures: nat          // failed disk writes so far

    function Limit(): nat { cfgSize * 1048576 }

    /** An empty cache over `disk`. */
    constructor (pieceLength: pos, npieces: nat, cfgSize: pos, size: nat, disk: seq<byte>)
      ensures Valid() && Coherent(nodes, this.disk, flat) && flat == this.disk == disk && nodes == {}
      ensures this.pieceLength == pieceLength && this.cfgSize == cfgSize && this.size == size && fresh(head)
      ensures total == |disk| && head.Length == npieces && used == 0 && !flushFailed && have == {}
    {
      this.pieceLength, this.cfgSize, this.size, this.disk, total := pieceLength, cfgSize, size, disk, |disk|;
      head := new Entry?[npieces](_ => null);
      oldest, newest, used, have, now, boost := null, null, 0, {}, 0, 0;
      flushFailed, flushTried := false, 0;
      age, lists, nodes, flat, failures := [], seq(npieces, _ => []), {}, disk, 0;
    }

    ghost predicate AgeOk()
      reads this`age, this`oldest, this`newest, age`ageNext, age`agePrev
    {
      Distinct(age) && Aged(age, oldest, newest)
    }

    ghost predicate ListsOk()
      reads this`lists, this`nodes, head, nodes`next, nodes`prev
    {
      && |lists| == head.Length && Sorted(lists, pieceLength)
      && (forall i, e :: 0 <= i < |lists| && e in lists[i] ==> e in nodes)
      && (forall i :: 0 <= i < |lists| ==> Linked(lists[i], head[i]))
    }

    /** A non-empty range inside one piece of the torrent. */
    ghost predicate InPiece(off: nat, len: nat)
    {
      && 0 < len && off + len <= total
      && PieceOf(off, pieceLength) == PieceOf(off + len - 1, pieceLength)
      && PieceOf(off, pieceLength) < head.Length
    }

    ghost predicate EntriesOk(s: set<Entry>)
        reads s`buf
    {
      forall e {:trigger InPiece(e.off, e.len)} {:trigger e.buf} :: e in s ==> InPiece(e.off, e.len) && |e.buf| == e.len
    }

    /** The dual-list invariant: both views hold exactly `nodes`, well linked, and the size counter is exact. */
    ghost predicate Valid()
      reads this`disk, this`age, this`oldest, this`newest, this`lists, this`nodes, this`used, head
      reads nodes`buf, nodes`next, nodes`prev, age`ageNext, age`agePrev
    {
      && |disk| == total
      && AgeOk()
      && ListsOk()
      && Members(age, lists, nodes, pieceLength)
      && Disjoint(nodes)
      && EntriesOk(nodes)
      && used == Total(age)
    }

    /** Unlink `p` from the age list. */
    method AgeUnlink(p: Entry, ghost k: nat)
      requires AgeOk() && k < |age| && age[k] == p
      modifies this`age, this`oldest, this`newest, age`ageNext, age`agePrev
      ensures AgeOk()
      ensures age == Without(old(age), k)
      ensures p.ageNext == old(p.ageNext)
    {
      hide Aged;
      WithoutDistinct(age, k);
      oldest, newest := AgeOut(p, age, oldest, newest, k);
      age := Without(age, k);
    }

    /** Link `p` as the newest of the age list. */
    method AgeLink(p: Entry)
      requires AgeOk() && p !in age
      modifies this`age, this`oldest, this`newest, age`ageNext, p`ageNext, p`agePrev
      ensures AgeOk()
      ensures age == old(age) + [p] && newest == p
    {
      hide Aged;
      oldest := AgeIn(p, age, oldest, newest);
      newest := p;
      age := age + [p];
    }

    /** No entry is in the lists of two pieces. */
    lemma ListsApart(i: nat)
      requires ListsOk() && i < |lists|
      ensures forall j, e :: 0 <= j < |lists| && j != i && e in lists[j] ==> e !in lists[i]
      ensures forall j :: 0 <= j < |lists| ==> Linked(lists[j], head[j])
      ensures forall j, e :: 0 <= j < |lists| && e in lists[j] ==> e in nodes
      ensures Linked(lists[i], head[i]) && Distinct(lists[i]) && Sorted(lists, pieceLength) && |lists| == head.Length
    {
      hide PieceOf;
    }

    lemma AssembleLists()
      requires |lists| == head.Length && Sorted(lists, pieceLength)
      requires forall i, e :: 0 <= i < |lists| && e in lists[i] ==> e in nodes
      requires forall i :: 0 <= i < |lists| ==> (lists[i] == [] && head[i] == null) || Linked(lists[i], head[i])
      ensures ListsOk()
    {
    }

    /** Unlink `p` from the list of its piece. */
    method ListUnlink(p: Entry, ghost k: nat)
      requires ListsOk() && PieceOf(p.off, pieceLength) < head.Length
      requires k < |lists[PieceOf(p.off, pieceLength)]| && lists[PieceOf(p.off, pieceLength)][k] == p
      modifies this`lists, this`nodes, head, nodes`next, nodes`prev
      ensures ListsOk() && nodes == old(nodes) - {p}
      ensures lists == old(lists)[PieceOf(p.off, pieceLength) := Without(old(lists)[PieceOf(p.off, pieceLength)], k)]
    {
      hide PieceOf, Linked, Sorted, Distinct;
      var idx := PieceOf(p.off, pieceLength);
      ghost var list := lists[idx];
      SortedWithout(lists, pieceLength, idx, k);
      ListsApart(idx);
      WithoutDistinct(list, k);
      assert p in list;
      head[idx] := JoinNeighbours(p, list, head[idx], k);
      forall i | 0 <= i < |lists| && i != idx ensures Linked(lists[i], head[i]) {
        assert old(Linked(lists[i], head[i]));
        assert forall e :: e in lists[i] ==> e !in list;
        assert forall e :: e in lists[i] ==> e.next == old(e.next) && e.prev == old(e.prev);
      }
      assert Linked(Without(list, k), head[idx]);
      lists := lists[idx := Without(list, k)];
      nodes := nodes - {p};
    }

    /** The parts of `Valid`, put together. */
    lemma Assemble()
      requires |disk| == total
      requires AgeOk() && ListsOk() && Members(age, lists, nodes, pieceLength)
      requires Disjoint(nodes) && EntriesOk(nodes) && used == Total(age)
      ensures Valid()
    {
    }

    /** The parts of `Valid`, taken apart. */
    lemma Parts()
      requires Valid()
      ensures |disk| == total
      ensures AgeOk() && ListsOk() && Members(age, lists, nodes, pieceLength)
      ensures Disjoint(nodes) && EntriesOk(nodes) && used == Total(age)
      ensures Distinct(age) && |lists| == head.Length && Sorted(lists, pieceLength)
      ensures forall e :: e in age <==> e in nodes
    {
    }

    /** What taking the entry at `k` of the age list out of both views needs, and what it leaves. */
    lemma TakeOut(k: nat) returns (i: nat, j: nat)
      requires Valid() && k < |age|
      ensures i == PieceOf(age[k].off, pieceLength) < head.Length == |lists| && j < |lists[i]| && lists[i][j] == age[k]
      ensures used == Total(Without(age, k)) + age[k].len
      ensures Members(Without(age, k), lists[i := Without(lists[i], j)], nodes - {age[k]}, pieceLength)
      ensures Disjoint(nodes - {age[k]}) && EntriesOk(nodes - {age[k]}) && age[k] in nodes
      ensures Coherent(nodes, disk, flat) && !age[k].flush ==> Coherent(nodes - {age[k]}, disk, flat)
    {
      if Coherent(nodes, disk, flat) && !age[k].flush { CoherentDrop(nodes, age[k], disk, flat); }
      hide PieceOf, Total, Coherent;
      i := PieceOf(age[k].off, pieceLength);
      j :| 0 <= j < |lists[i]| && lists[i][j] == age[k];
      TotalWithout(age, k);
      MembersWithout(age, lists, nodes, pieceLength, i, j, k);
    }

    /** Expire `p`: unlink it from both lists and drop it. */
    method Evict(p: Entry, ghost k: nat)
      requires Valid() && k < |age| && age[k] == p
      modifies this`age, this`oldest, this`newest, this`lists, this`nodes, this`used
      modifies head, nodes`next, nodes`prev, nodes`ageNext, nodes`agePrev
      ensures Valid()
      ensures age == Without(old(age), k) && nodes == old(nodes) - {p} && used + p.len == old(used)
      ensures p.ageNext == old(p.ageNext)
      ensures |lists| == |old(lists)|
      ensures forall i :: 0 <= i < |lists| && i != PieceOf(p.off, pieceLength) ==> lists[i] == old(lists)[i]
      ensures old(Coherent(nodes, disk, flat)) && !old(p.flush) ==> Coherent(nodes, disk, flat)
    {
      hide *;
      Parts();
      ghost var i, j := TakeOut(k);
      AgeUnlink(p, k);
      ListUnlink(p, j);
      used := used - p.len;
      Assemble();
    }

    /** Make `p` the newest entry. */
    method MoveNewest(p: Entry, ghost k: nat)
      requires Valid() && k < |age| && age[k] == p && newest != p
      modifies this`age, this`oldest, this`newest, nodes`ageNext, nodes`agePrev
      ensures Valid()
      ensures age == Without(old(age), k) + [p] && newest == p
    {
      hide *;
      Parts();
      MembersMoved(age, k);
      AgeUnlink(p, k);
      AgeLink(p);
      Assemble();
    }

    lemma MembersMoved(before: seq<Entry>, k: nat)
      requires k < |before| && Distinct(before)
      requires Members(before, lists, nodes, pieceLength)
      ensures Members(Without(before, k) + [before[k]], lists, nodes, pieceLength)
      ensures Total(Without(before, k) + [before[k]]) == Total(before)
      ensures before[k] !in Without(before, k)
      ensures forall e :: e in Without(before, k) ==> e in nodes
    {
      hide PieceOf, Total;
      WithoutDistinct(before, k);
      TotalWithout(before, k);
      TotalAppend(Without(before, k), before[k]);
    }

    /** A write has failed, and it is too early to retry. */
    predicate Stalled()
      reads this`flushFailed, this`flushTried, this`now
    {
      flushFailed && now < flushTried + RETRY_INTERVAL
    }

    /** Sizes and failures only grow, and the failure flag goes up exactly with a failed write. */
    twostate predicate Status()
      reads this`size, this`failures, this`flushFailed
    {
      && old(size) <= size && old(failures) <= failures
      && (!old(flushFailed) ==> (flushFailed <==> failures > old(failures)))
    }

    /** A disk write, which may fail; a failed one may leave anything in its range. */
    method DiskWrite(data: seq<byte>, off: nat) returns (ok: bool)
      requires off + |data| <= |disk|
      modifies this`disk, this`flushFailed, this`flushTried, this`size, this`failures
      ensures |disk| == |old(disk)|
      ensures forall i :: 0 <= i < |disk| && !(off <= i < off + |data|) ==> disk[i] == old(disk)[i]
      ensures ok ==> disk == Splice(old(disk), off, data) && failures == old(failures)
      ensures ok ==> flushFailed == old(flushFailed) && flushTried == old(flushTried) && size == old(size)
      ensures !ok ==> flushFailed && flushTried == now && failures == old(failures) + 1
      ensures !ok ==> size == old(size) + if old(flushFailed) then 0 else boost
    {
      ok := *;
      if ok {
        disk := Splice(disk, off, data);
      } else {
        var torn: seq<byte> := *;
        if |torn| == |data| { disk := Splice(disk, off, torn); }
        WriteFail();
      }
    }

    method WriteFail()
      modifies this`flushFailed, this`flushTried, this`size, this`failures
      ensures flushFailed && flushTried == now && failures == old(failures) + 1
      ensures size == old(size) + if old(flushFailed) then 0 else boost
    {
      flushTried := now;
      if !flushFailed { size := size + boost; }
      flushFailed := true;
      failures := failures + 1;
    }

    lemma FlushOpen(p: Entry, disk0: seq<byte>)
      requires p in nodes && Disjoint(nodes) && |disk| == |disk0| && forall e :: e in nodes ==> 0 < e.len
      requires forall i :: 0 <= i < |disk| && !(p.off <= i < p.off + p.len) ==> disk[i] == disk0[i]
      ensures Coherent(nodes, disk0, flat) ==>
        CoherentBut(nodes, p, disk, flat) && p.off + p.len <= |flat| && p.buf == flat[p.off..p.off + p.len]
    {
      if Coherent(nodes, disk0, flat) {
        CoherentAt(nodes, p, disk0, flat);
        CoherentOpen(nodes, p, disk0, disk, flat, flat);
      }
    }

    lemma FlushClose(p: Entry, coherent: bool)
      requires p in nodes
      requires coherent ==> CoherentBut(nodes, p, disk, flat) && p.off + p.len <= |flat| == |disk| && p.buf == flat[p.off..p.off + p.len]
      requires coherent ==> p.flush || disk[p.off..p.off + p.len] == p.buf
      ensures coherent ==> Coherent(nodes, disk, flat)
    {
      if coherent { CoherentClose(nodes, p, disk, flat); }
    }

    /** Write one entry back. */
    method FlushEntry(p: Entry)
      requires Valid() && p in nodes
      modifies this`disk, this`flushFailed, this`flushTried, this`size, this`failures, p`flush
      ensures Valid()
      ensures old(Coherent(nodes, disk, flat)) ==> Coherent(nodes, disk, flat)
      ensures p.flush ==> old(p.flush)
      ensures old(Stalled()) ==>
        flushFailed && flushTried == old(flushTried) && p.flush == old(p.flush) && size == old(size) && failures == old(failures)
      ensures p.flush || (!old(flushFailed) && flushFailed) ==> Stalled()
      ensures !old(flushFailed) && !flushFailed ==> size == old(size)
      ensures Status()
    {
      hide Valid, Coherent, AgeOk, ListsOk, Members, Disjoint, EntriesOk, Sorted, Distinct, Total, PieceOf, Linked;
      hide InPiece, Renewed, Splice;
      if p.flush && !Stalled() {
        WriteBack(p);
      }
    }

    /** A dirty entry, when nothing keeps it from being written. */
    method WriteBack(p: Entry)
      requires Valid() && p in nodes && p.flush
      modifies this`disk, this`flushFailed, this`flushTried, this`size, this`failures, p`flush
      ensures Valid()
      ensures old(Coherent(nodes, disk, flat)) ==> Coherent(nodes, disk, flat)
      ensures p.flush == flushFailed && (flushFailed ==> flushTried == now)
      ensures !flushFailed ==> size == old(size)
      ensures Status()
    {
      hide Valid, Coherent, AgeOk, ListsOk, Members, Disjoint, EntriesOk, Sorted, Distinct, Total, PieceOf, Linked;
      hide InPiece, Renewed, Splice;
      Parts();
      SizeFacts();
      EntryFacts(p);
      ghost var disk0, coherent := disk, Coherent(nodes, disk, flat);
      var ok := DiskWrite(p.buf, p.off);
      FlushOpen(p, disk0);
      if ok {
        p.flush := false;
        flushFailed := false;
      }
      FlushClose(p, coherent);
      Assemble();
    }

    lemma EntryFacts(e: Entry)
      requires Valid() && e in nodes
      ensures 0 < e.len == |e.buf| && e.off + e.len <= total && PieceOf(e.off, pieceLength) < head.Length
      ensures PieceOf(e.off, pieceLength) == PieceOf(e.off + e.len - 1, pieceLength)
      ensures exists k :: 0 <= k < |age| && age[k] == e
    {
      assert InPiece(e.off, e.len);
    }

    lemma PieceFacts(idx: nat, j: nat)
      requires Valid() && idx < head.Length && j < |lists[idx]|
      ensures lists[idx][j] in nodes && lists[idx][j] in age
      ensures (if j + 1 < |lists[idx]| then lists[idx][j].next == lists[idx][j + 1] else lists[idx][j].next == null)
      ensures Distinct(lists[idx])
    {
      hide PieceOf;
      assert Linked(lists[idx], head[idx]);
      assert lists[idx][j] in lists[idx];
    }

    lemma HeadFacts(idx: nat)
      requires Valid() && idx < head.Length
      ensures |lists| == head.Length && head[idx] == At(lists[idx], 0)
      ensures IsNewest(age, lists[idx], 0)
    {
      assert Linked(lists[idx], head[idx]);
    }

    /** Make `p` the newest, unless it already is. Returns whether the age list was changed. */
    method Renew(p: Entry) returns (moved: bool)
      requires Valid() && p in nodes
      modifies this`age, this`oldest, this`newest, nodes`ageNext, nodes`agePrev
      ensures Valid()
      ensures p in old(age) && age == Renewed(old(age), p) && newest == p
      ensures !moved ==> age == old(age)
    {
      EntryFacts(p);
      hide PieceOf, Linked, Sorted, Members, ListsOk, Disjoint, Total, EntriesOk;
      ghost var k :| 0 <= k < |age| && age[k] == p;
      moved := newest != p;
      if newest != p {
        MoveNewest(p, k);
      }
    }

    /** One step of FlushPiece: renew `p` when its piece is complete, then write it back. */
    method FlushStep(p: Entry, complete: bool) returns (moved: bool)
      requires Valid() && p in nodes
      modifies this`disk, this`flushFailed, this`flushTried, this`size, this`failures, p`flush
      modifies this`age, this`oldest, this`newest, nodes`ageNext, nodes`agePrev
      ensures Valid()
      ensures old(Coherent(nodes, disk, flat)) ==> Coherent(nodes, disk, flat)
      ensures p in old(age) && age == if complete then Renewed(old(age), p) else old(age)
      ensures !moved ==> age == old(age)
      ensures p.flush ==> old(p.flush)
      ensures old(Stalled()) ==>
        flushFailed && flushTried == old(flushTried) && p.flush == old(p.flush) && size == old(size) && failures == old(failures)
      ensures p.flush || (!old(flushFailed) && flushFailed) ==> Stalled()
      ensures !old(flushFailed) && !flushFailed ==> size == old(size)
      ensures Status()
    {
      hide Valid, Coherent, AgeOk, ListsOk, Members, Disjoint, EntriesOk, Sorted, Distinct, Total, PieceOf, Linked;
      hide InPiece, Renewed, Splice;
      EntryFacts(p);
      moved := false;
      if complete {
        moved := Renew(p);
      }
      FlushEntry(p);
    }

    /** Write back what the piece has dirty; a complete piece also becomes the newest. Returns 1 if aging changed. */
    method FlushPiece(idx: nat) returns (moved: bool)
      requires Valid() && idx < head.Length
      modifies this`disk, this`flushFailed, this`flushTried, this`size, this`failures, nodes`flush
      modifies this`age, this`oldest, this`newest, nodes`ageNext, nodes`agePrev
      ensures Valid()
      ensures old(Coherent(nodes, disk, flat)) ==> Coherent(nodes, disk, flat)
      ensures forall e :: e in nodes && e.flush ==> old(e.flush)
      ensures forall e :: e in nodes && e !in lists[idx] ==> e.flush == old(e.flush)
      ensures !flushFailed ==> forall e :: e in lists[idx] ==> !e.flush
      ensures !old(flushFailed) && !flushFailed ==> size == old(size)
      ensures Status()
      ensures !moved ==> age == old(age)
      ensures if idx in have then IsNewest(age, lists[idx], |lists[idx]|) else age == old(age)
    {
      hide Valid, Coherent, IsNewest, Renewed, PieceOf;
      HeadFacts(idx);
      moved := false;
      var p := head[idx];
      ghost var j := 0;
      while p != null
        invariant Valid() && j <= |lists[idx]| && |lists| == head.Length
        invariant if j < |lists[idx]| then p == lists[idx][j] else p == null
        invariant old(Coherent(nodes, disk, flat)) ==> Coherent(nodes, disk, flat)
        invariant forall e :: e in nodes && e.flush ==> old(e.flush)
        invariant forall e :: e in nodes && e !in lists[idx] ==> e.flush == old(e.flush)
        invariant Stalled() || forall i :: 0 <= i < j ==> !lists[idx][i].flush
        invariant !old(flushFailed) && flushFailed ==> Stalled()
        invariant !old(flushFailed) && !flushFailed ==> size == old(size)
        invariant Status()
        invariant !moved ==> age == old(age)
        invariant if idx in have then IsNewest(age, lists[idx], j) else age == old(age)
        decreases |lists[idx]| - j
      {
        PieceFacts(idx, j);
        if idx in have { RenewedSuffix(age, lists[idx], j); }
        var m := FlushStep(p, idx in have);
        moved := moved || m;
        p := p.next;
        j := j + 1;
      }
    }

    ghost function Dirty(): set<Entry>
      reads this`nodes, nodes`flush
    {
      set e | e in nodes && e.flush
    }

    lemma AgeFacts(k: nat)
      requires Valid() && k <= |age|
      ensures |lists| == head.Length
      ensures k == 0 ==> oldest == (if |age| == 0 then null else age[0])
      ensures k < |age| ==> age[k] in nodes && age[k].ageNext == (if k + 1 < |age| then age[k + 1] else null)
      ensures k < |age| ==>
        var i := PieceOf(age[k].off, pieceLength); i < |lists| == head.Length && age[k] in lists[i]
      ensures forall e :: e in age <==> e in nodes
      ensures nodes == {} <==> used == 0
    {
      hide PieceOf;
      if age != [] { EntryFacts(age[0]); }
    }

    /** What a cleaning pass keeps: dirty entries, and those of the piece to spare. */
    ghost predicate Kept(e: Entry, idx: nat, flushing: bool)
        reads this`flushFailed, e`flush
    {
      if flushing then e.flush && flushFailed else e.flush || PieceOf(e.off, pieceLength) == idx
    }

    /** One step of a cleaning scan: look at `p`, perhaps write its piece back, perhaps expire it. */
    method CleanStep(p: Entry, ghost k: nat, idx: nat, flushing: bool) returns (pnext: Entry?, ghost k': nat)
      requires Valid() && k < |age| && age[k] == p
      requires forall i :: 0 <= i < k ==> Kept(age[i], idx, flushing)
      modifies this`disk, this`flushFailed, this`flushTried, this`size, this`failures, nodes`flush
      modifies this`age, this`oldest, this`newest, this`lists, this`nodes, this`used
      modifies head, nodes`next, nodes`prev, nodes`ageNext, nodes`agePrev
      ensures Valid() && nodes <= old(nodes)
      ensures k' <= |age| && pnext == (if k' < |age| then age[k'] else null)
      ensures forall i :: 0 <= i < k' ==> Kept(age[i], idx, flushing)
      ensures old(Coherent(nodes, disk, flat)) ==> Coherent(nodes, disk, flat)
      ensures forall e :: e in old(nodes) && e.flush ==> e in nodes && old(e.flush)
      ensures !flushing ==> disk == old(disk) && flushFailed == old(flushFailed)
      ensures |lists| == |old(lists)| && (!flushing && idx < |lists| ==> lists[idx] == old(lists)[idx])
      ensures !flushing || (!old(flushFailed) && !flushFailed) ==> size == old(size)
      ensures Status() && (!flushFailed ==> !old(flushFailed))
      ensures (!old(flushFailed) && flushFailed) || Dirty() < old(Dirty()) || (Dirty() == old(Dirty()) && |age| - k' < |old(age)| - k)
      ensures Dropped(old(nodes), old(used), nodes, used, p)
      ensures !flushing ==>
        && (forall e :: e in old(nodes) ==> e.flush == old(e.flush))
        && if p.flush || PieceOf(p.off, pieceLength) == idx then age == old(age) && nodes == old(nodes) && k' == k + 1
           else age == Without(old(age), k) && nodes == old(nodes) - {p} && k' == k
    {
      hide Valid, Coherent, PieceOf, IsNewest;
      ghost var dirty := Dirty();
      AgeFacts(k);
      pnext, k' := p.ageNext, k + 1;
      if flushing && p.flush && !flushFailed {
        var moved := FlushPiece(PieceOf(p.off, pieceLength));
        assert !flushFailed ==> p !in Dirty() && Dirty() <= dirty;
        if moved {
          AgeFacts(0);
          pnext, k' := oldest, 0;
          return;
        }
      }
      if !p.flush {
        if !flushing && idx == PieceOf(p.off, pieceLength) { return; }
        Evict(p, k);
        assert flushing || Dirty() == dirty;
        k' := k;
      }
    }

    /** Of the entries in `was`, oldest first, which may go (those in `may`) an older one has gone if a newer one has. */
    static ghost predicate OldestFirst(was: seq<Entry>, may: set<Entry>, left: set<Entry>) {
      forall i, j :: 0 <= i < j < |was| && was[i] in may && was[j] !in left ==> was[i] !in left
    }

    /** The entries that may go before others: those that need not be written back, and are of another piece. */
    ghost function Spent(idx: nat): set<Entry>
      reads this`nodes, nodes`flush
    {
      set e | e in nodes && !e.flush && PieceOf(e.off, pieceLength) != idx
    }

    /** Entry `p` has gone, or none. */
    static ghost predicate Dropped(nodes1: set<Entry>, used1: nat, nodes2: set<Entry>, used2: nat, p: Entry) {
      if nodes2 == nodes1 then used2 == used1 else p in nodes1 && nodes2 == nodes1 - {p} && used2 + p.len == used1
    }

    /** If any entry has gone, there would not have been room for `need` bytes without the last of them going. */
    static ghost predicate Needed(was: set<Entry>, used0: nat, size: nat, left: set<Entry>, used: nat, need: nat) {
      (left == was && used == used0) || exists e :: e in was && e !in left && size < used + e.len + need
    }

    static lemma NeededNext(was: set<Entry>, used0: nat, size: nat, nodes1: set<Entry>, used1: nat, nodes2: set<Entry>, used2: nat,
                            p: Entry, need: nat)
      requires Needed(was, used0, size, nodes1, used1, need) && nodes1 <= was && Dropped(nodes1, used1, nodes2, used2, p)
      requires size < used1 + need
      ensures Needed(was, used0, size, nodes2, used2, need)
    {
      if nodes2 != nodes1 {
        assert p in was && p !in nodes2;
      }
    }

    static lemma NeededTwice(was: set<Entry>, used0: nat, size: nat, nodes1: set<Entry>, used1: nat, size1: nat, nodes2: set<Entry>,
                             used2: nat, need: nat)
      requires Needed(was, used0, size, nodes1, used1, need) && Needed(nodes1, used1, size1, nodes2, used2, need)
      requires size <= size1 && nodes2 <= nodes1 <= was
      ensures Needed(was, used0, size, nodes2, used2, need)
    {
    }

    static lemma AllSpent(was: seq<Entry>, may: set<Entry>, left: set<Entry>)
      requires forall e :: e in may ==> e !in left
      ensures OldestFirst(was, may, left)
    {
    }

    /** The scan has passed the first `q` of the entries in `was`, and `k` of them are left. */
    static ghost predicate Scanned(was: seq<Entry>, may: set<Entry>, q: nat, age: seq<Entry>, k: nat, nodes: set<Entry>) {
      && q <= |was| && k <= |age| && age[k..] == was[q..]
      && (forall i :: 0 <= i < q && was[i] in may ==> was[i] !in nodes)
      && (forall i :: q <= i < |was| ==> was[i] in nodes)
    }

    static lemma ScanNext(was: seq<Entry>, may: set<Entry>, q: nat, age1: seq<Entry>, k1: nat, nodes1: set<Entry>,
                          age2: seq<Entry>, k2: nat, nodes2: set<Entry>)
      requires Scanned(was, may, q, age1, k1, nodes1) && k1 < |age1| && Distinct(was)
      requires if age1[k1] in may then age2 == Without(age1, k1) && k2 == k1 && nodes2 == nodes1 - {age1[k1]}
        else age2 == age1 && k2 == k1 + 1 && nodes2 == nodes1
      ensures Scanned(was, may, q + 1, age2, k2, nodes2)
    {
      assert age1[k1..][0] == age1[k1] && age1[k1..][1..] == age1[k1 + 1..];
      assert was[q..][0] == was[q] && was[q..][1..] == was[q + 1..];
      assert Without(age1, k1)[k1..] == age1[k1 + 1..];
    }

    /** A step of the scan, and what it makes of the entries in `was`, where the scan began. */
    method PassStep(p: Entry, ghost k: nat, idx: nat, flushing: bool, ghost was: seq<Entry>, ghost may: set<Entry>, ghost q: nat,
                    ghost nodes0: set<Entry>, ghost used0: nat, ghost size0: nat, ghost need: nat) returns (pnext: Entry?, ghost k': nat)
      requires Valid() && k < |age| && age[k] == p
      requires forall i :: 0 <= i < k ==> Kept(age[i], idx, flushing)
      requires Distinct(was) && nodes <= nodes0 && size0 <= size < used + need && Needed(nodes0, used0, size0, nodes, used, need)
      requires !flushing ==>
        Scanned(was, may, q, age, k, nodes) && (p in may <==> !p.flush && PieceOf(p.off, pieceLength) != idx)
      modifies this`disk, this`flushFailed, this`flushTried, this`size, this`failures, nodes`flush
      modifies this`age, this`oldest, this`newest, this`lists, this`nodes, this`used
      modifies head, nodes`next, nodes`prev, nodes`ageNext, nodes`agePrev
      ensures Valid() && nodes <= old(nodes)
      ensures k' <= |age| && pnext == (if k' < |age| then age[k'] else null)
      ensures forall i :: 0 <= i < k' ==> Kept(age[i], idx, flushing)
      ensures old(Coherent(nodes, disk, flat)) ==> Coherent(nodes, disk, flat)
      ensures forall e :: e in old(nodes) && e.flush ==> e in nodes && old(e.flush)
      ensures !flushing ==> disk == old(disk) && flushFailed == old(flushFailed)
      ensures |lists| == |old(lists)| && (!flushing && idx < |lists| ==> lists[idx] == old(lists)[idx])
      ensures !flushing || (!old(flushFailed) && !flushFailed) ==> size == old(size)
      ensures Status() && (!flushFailed ==> !old(flushFailed))
      ensures (!old(flushFailed) && flushFailed) || Dirty() < old(Dirty()) || (Dirty() == old(Dirty()) && |age| - k' < |old(age)| - k)
      ensures Needed(nodes0, used0, size0, nodes, used, need)
      ensures !flushing ==> Scanned(was, may, q + 1, age, k', nodes) && forall e :: e in old(nodes) ==> e.flush == old(e.flush)
    {
      hide Valid, Coherent, PieceOf, IsNewest, Kept, Scanned, Needed, Dropped, Distinct, Dirty;
      ghost var age1, nodes1, used1 := age, nodes, used;
      pnext, k' := CleanStep(p, k, idx, flushing);
      NeededNext(nodes0, used0, size0, nodes1, used1, nodes, used, p, need);
      if !flushing { ScanNext(was, may, q, age1, k, nodes1, age, k', nodes); }
    }

    /** One scan of the age list for entries to expire, from the oldest on, until `need` more bytes fit. */
    method CleanPass(need: nat, idx: nat, flushing: bool)
      requires Valid()
      modifies this`disk, this`flushFailed, this`flushTried, this`size, this`failures, nodes`flush
      modifies this`age, this`oldest, this`newest, this`lists, this`nodes, this`used
      modifies head, nodes`next, nodes`prev, nodes`ageNext, nodes`agePrev
      ensures Valid() && nodes <= old(nodes)
      ensures old(Coherent(nodes, disk, flat)) ==> Coherent(nodes, disk, flat)
      ensures forall e :: e in old(nodes) && e.flush ==> e in nodes && old(e.flush)
      ensures used + need <= size || forall e :: e in nodes ==> Kept(e, idx, flushing)
      ensures !flushing ==> disk == old(disk) && flushFailed == old(flushFailed)
      ensures |lists| == |old(lists)| && (!flushing && idx < |lists| ==> lists[idx] == old(lists)[idx])
      ensures !flushing || (!old(flushFailed) && !flushFailed) ==> size == old(size)
      ensures Status() && (!flushFailed ==> !old(flushFailed))
      ensures Needed(old(nodes), old(used), old(size), nodes, used, need) && (!flushing ==> OldestFirst(old(age), old(Spent(idx)), nodes))
      ensures !flushing && size < used + need ==> forall e :: e in old(Spent(idx)) ==> e !in nodes
    {
      hide Valid, Coherent, PieceOf, IsNewest, Kept, Scanned, Needed, Dropped, OldestFirst, Distinct, Spent, Dirty;
      AgeFacts(0);
      ghost var was, may, q: nat := age, Spent(idx), 0;
      AgeNodes();
      ScanStart(idx);
      var p := oldest;
      ghost var k: nat := 0;
      while p != null && size < used + need
        invariant Valid() && nodes <= old(nodes) && k <= |age|
        invariant p == (if k < |age| then age[k] else null)
        invariant old(Coherent(nodes, disk, flat)) ==> Coherent(nodes, disk, flat)
        invariant forall e :: e in old(nodes) && e.flush ==> e in nodes && old(e.flush)
        invariant forall i :: 0 <= i < k ==> Kept(age[i], idx, flushing)
        invariant !flushing ==> disk == old(disk) && flushFailed == old(flushFailed)
        invariant |lists| == |old(lists)| && (!flushing && idx < |lists| ==> lists[idx] == old(lists)[idx])
        invariant !flushing || (!old(flushFailed) && !flushFailed) ==> size == old(size)
        invariant Status() && (!flushFailed ==> !old(flushFailed))
        invariant Needed(old(nodes), old(used), old(size), nodes, used, need)
        invariant !flushing ==> Scanned(was, may, q, age, k, nodes) && forall e :: e in nodes ==> e.flush == old(e.flush)
        decreases !flushFailed, Dirty(), |age| - k
      {
        AgeFacts(k);
        assert !flushing ==> (p in may <==> !p.flush && PieceOf(p.off, pieceLength) != idx);
        p, k := PassStep(p, k, idx, flushing, was, may, q, old(nodes), old(used), old(size), need);
        q := q + 1;
      }
      AgeFacts(|age|);
      if !flushing { ScanDone(was, may, q, k); }
    }

    lemma AgeNodes()
      requires Valid()
      ensures (forall e :: e in age <==> e in nodes) && Distinct(age)
    {
      hide PieceOf;
    }

    lemma ScanStart(idx: nat)
      requires Valid()
      ensures Scanned(age, Spent(idx), 0, age, 0, nodes)
      ensures forall e :: e in Spent(idx) ==> e in age
      ensures forall e :: e in Spent(idx) <==> e in nodes && !e.flush && PieceOf(e.off, pieceLength) != idx
      ensures forall size: nat, need: nat :: Needed(nodes, used, size, nodes, used, need)
    {
      AgeNodes();
      hide Valid, PieceOf;
    }

    lemma ScanDone(was: seq<Entry>, may: set<Entry>, q: nat, k: nat)
      requires Scanned(was, may, q, age, k, nodes) && forall e :: e in may ==> e in was
      ensures OldestFirst(was, may, nodes)
      ensures k == |age| ==> forall e :: e in may ==> e !in nodes
    {
      if k == |age| {
        assert age[k..] == [];
        assert q == |was|;
      }
    }

    /** Make room for `need` bytes. `idx` is a piece to spare while anything else can be expired. */
    method CacheClean(need: nat, idx: nat)
      requires Valid()
      modifies this`disk, this`flushFailed, this`flushTried, this`size, this`failures, nodes`flush
      modifies this`age, this`oldest, this`newest, this`lists, this`nodes, this`used
      modifies head, nodes`next, nodes`prev, nodes`ageNext, nodes`agePrev
      ensures Valid() && nodes <= old(nodes)
      ensures old(Coherent(nodes, disk, flat)) ==> Coherent(nodes, disk, flat)
      ensures forall e :: e in old(nodes) && e.flush ==> e in nodes && old(e.flush)
      ensures used + need <= size || (size >= Limit() && (nodes == {} || (flushFailed && forall e :: e in nodes ==> e.flush)))
      ensures nodes == {} ==> used == 0
      ensures idx < |lists| == |old(lists)| ==> lists[idx] == old(lists)[idx] || size >= Limit()
      ensures !old(flushFailed) && !flushFailed ==> size <= (if old(size) > Limit() then old(size) else Limit())
      ensures size == old(size) || old(flushFailed) || flushFailed ||
        (size in {used + need, Limit()} && forall e :: e in old(Spent(idx)) ==> e !in nodes)
      ensures Status() && (!flushFailed ==> !old(flushFailed))
      ensures Needed(old(nodes), old(used), old(size), nodes, used, need) && OldestFirst(old(age), old(Spent(idx)), nodes)
    {
      hide Valid, Coherent, PieceOf, IsNewest, Needed, OldestFirst, Spent;
      CleanPass(need, idx, false);
      if size < used + need {
        GrowSize(need);
        if size < used + need && used != 0 {
          ghost var nodes1, used1, size1 := nodes, used, size;
          CleanPass(need, idx, true);
          NeededTwice(old(nodes), old(used), old(size), nodes1, used1, size1, nodes, used, need);
          AllSpent(old(age), old(Spent(idx)), nodes);
          if size < used + need { GrowSize(need); }
        }
      }
      AgeFacts(|age|);
    }

    /** Let the cache grow towards `need` more bytes, up to the configured limit. */
    method GrowSize(need: nat)
      requires size < used + need
      modifies this`size
      ensures size == if old(size) >= Limit() then old(size) else if used + need > Limit() then Limit() else used + need
    {
      if size < Limit() {
        size := if used + need > Limit() then Limit() else used + need;
      }
    }

    lemma ListFacts(idx: nat)
      requires ListsOk() && idx < head.Length
      ensures |lists| == head.Length && Linked(lists[idx], head[idx]) && Ascending(lists[idx]) && Distinct(lists[idx])
      ensures Sorted(lists, pieceLength)
      ensures forall e :: e in lists[idx] ==> e in nodes && PieceOf(e.off, pieceLength) == idx
    {
      hide PieceOf;
    }

    /** The place of offset `off` in the list of piece `idx`: after `pp`, before `p`. */
    method FindPoint(idx: nat, off: nat, ghost len: nat) returns (pp: Entry?, p: Entry?, ghost k: nat)
      requires ListsOk() && idx < head.Length == |lists|
      requires 0 < len && Uncovered(nodes, off, len) && forall f :: f in nodes ==> 0 < f.len
      ensures k <= |lists[idx]| && pp == At(lists[idx], k - 1) && p == At(lists[idx], k)
      ensures forall j :: 0 <= j < k ==> lists[idx][j].off < off
      ensures forall j :: k <= j < |lists[idx]| ==> off < lists[idx][j].off
    {
      hide PieceOf, Sorted, ListsOk;
      ListFacts(idx);
      pp, p, k := null, head[idx], 0;
      while p != null && off > p.off
        invariant k <= |lists[idx]| && pp == At(lists[idx], k - 1) && p == At(lists[idx], k)
        invariant forall j :: 0 <= j < k ==> lists[idx][j].off < off
        decreases |lists[idx]| - k
      {
        pp := p;
        p := pp.next;
        k := k + 1;
      }
      forall j | k <= j < |lists[idx]| ensures off < lists[idx][j].off {
        assert lists[idx][j] in lists[idx];
      }
    }

    /** Link `e` into the list of its piece, by offset. */
    method ListLink(e: Entry) returns (ghost k: nat)
      requires ListsOk() && e !in nodes && 0 < e.len && PieceOf(e.off, pieceLength) < head.Length == |lists|
      requires Uncovered(nodes, e.off, e.len) && forall f :: f in nodes ==> 0 < f.len
      modifies this`lists, this`nodes, head, nodes`next, nodes`prev, e`next, e`prev
      ensures ListsOk() && nodes == old(nodes) + {e} && |lists| == |old(lists)|
      ensures k <= |old(lists)[PieceOf(e.off, pieceLength)]|
      ensures lists == old(lists)[PieceOf(e.off, pieceLength) := With(old(lists)[PieceOf(e.off, pieceLength)], k, e)]
    {
      hide PieceOf, Linked, Sorted, Distinct, Ascending, Uncovered, At, ListsOk, With;
      var idx := PieceOf(e.off, pieceLength);
      ListFacts(idx);
      var pp, p;
      pp, p, k := FindPoint(idx, e.off, e.len);
      SortedWith(lists, pieceLength, nodes, idx, k, e);
      Insert(e, idx, pp, p, k);
    }

    /** Put `e` at place `k` of the list of piece `idx`. */
    method Insert(e: Entry, idx: nat, pp: Entry?, p: Entry?, ghost k: nat)
      requires ListsOk() && e !in nodes && idx < head.Length == |lists| && k <= |lists[idx]|
      requires pp == At(lists[idx], k - 1) && p == At(lists[idx], k)
      requires forall j :: 0 <= j < k ==> lists[idx][j].off < e.off
      requires forall j :: k <= j < |lists[idx]| ==> e.off < lists[idx][j].off
      requires Sorted(lists[idx := With(lists[idx], k, e)], pieceLength)
      modifies this`lists, this`nodes, head, nodes`next, nodes`prev, e`next, e`prev
      ensures ListsOk() && nodes == old(nodes) + {e} && lists == old(lists)[idx := With(old(lists)[idx], k, e)]
    {
      hide PieceOf, Linked, Sorted, Distinct, At, ListsOk;
      ghost var lists0, list := lists, lists[idx];
      ListFacts(idx);
      ListsApart(idx);
      WithElements(list, k, e);
      head[idx] := JoinBetween(e, pp, p, list, head[idx], k);
      forall i | 0 <= i < |lists| && i != idx ensures Linked(lists[i], head[i]) {
        assert old(Linked(lists[i], head[i]));
        assert forall f :: f in lists[i] ==> f !in list && f != e;
        assert forall f :: f in lists[i] ==> f.next == old(f.next) && f.prev == old(f.prev);
      }
      assert Linked(With(list, k, e), head[idx]);
      lists := lists[idx := With(list, k, e)];
      nodes := nodes + {e};
      forall i, f | 0 <= i < |lists| && f in lists[i] ensures f in nodes {
        assert i != idx ==> f in lists0[i];
      }
      AssembleLists();
    }

    /** Put a new entry into the cache. */
    method AddEntry(off: nat, buf: seq<byte>, flush: bool)
      requires Valid() && Coherent(nodes, disk, flat)
      requires InPiece(off, |buf|) && Uncovered(nodes, off, |buf|)
      requires !flush ==> buf == disk[off..off + |buf|]
      modifies this`age, this`oldest, this`newest, this`lists, this`nodes, this`used, this`flat
      modifies head, nodes`next, nodes`prev, nodes`ageNext, nodes`agePrev
      ensures Valid() && Coherent(nodes, disk, flat)
      ensures flat == if flush then Splice(old(flat), off, buf) else old(flat)
      ensures newest != null && fresh(newest) && nodes == old(nodes) + {newest} && age == old(age) + [newest]
      ensures newest.off == off && newest.len == |buf| && newest.flush == flush
      ensures used == old(used) + |buf|
    {
      hide *;
      var e := new Entry(off, buf, flush);
      AddFacts(e);
      LinkEntry(e);
      flat := if flush then Splice(flat, off, buf) else flat;
    }

    /** Link a new entry into both lists. */
    method LinkEntry(e: Entry)
      requires Valid() && e !in nodes && EntriesOk(nodes + {e}) && Disjoint(nodes + {e}) && Uncovered(nodes, e.off, e.len)
      requires 0 < e.len && PieceOf(e.off, pieceLength) < |lists| == head.Length && forall f :: f in nodes ==> 0 < f.len
      modifies this`age, this`oldest, this`newest, this`lists, this`nodes, this`used
      modifies head, nodes`next, nodes`prev, nodes`ageNext, nodes`agePrev, e`next, e`prev, e`ageNext, e`agePrev
      ensures Valid() && nodes == old(nodes) + {e} && age == old(age) + [e] && newest == e && used == old(used) + e.len
    {
      hide *;
      Parts();
      TotalAppend(age, e);
      used := used + e.len;
      AgeLink(e);
      ghost var k := ListLink(e);
      MembersWith(old(age), old(lists), old(nodes), pieceLength, PieceOf(e.off, pieceLength), k, e);
      Assemble();
    }

    lemma AddFacts(e: Entry)
      requires Valid() && Coherent(nodes, disk, flat) && e !in nodes
      requires InPiece(e.off, e.len) && |e.buf| == e.len && Uncovered(nodes, e.off, e.len)
      requires !e.flush ==> e.buf == disk[e.off..e.off + e.len]
      ensures Coherent(nodes + {e}, disk, if e.flush then Splice(flat, e.off, e.buf) else flat)
      ensures EntriesOk(nodes + {e}) && Disjoint(nodes + {e}) && e !in age
      ensures 0 < e.len && e.off + e.len <= |disk| == |flat| && PieceOf(e.off, pieceLength) < |lists| == head.Length
      ensures forall f :: f in nodes ==> 0 < f.len
    {
      hide PieceOf;
      if e.flush { CoherentAddDirty(nodes, e, disk, flat); } else { CoherentAddClean(nodes, e, disk, flat); }
      forall f | f in nodes ensures 0 < f.len && Apart(e, f) && Apart(f, e) { assert InPiece(f.off, f.len); }
    }

    /** Write past the cache. A failed write leaves nothing changed outside its range. */
    method WriteThrough(data: seq<byte>, off: nat) returns (ok: bool)
      requires Valid() && Coherent(nodes, disk, flat) && Uncovered(nodes, off, |data|) && off + |data| <= total
      modifies this`disk, this`flat, this`flushFailed, this`flushTried, this`size, this`failures
      ensures Valid() && Coherent(nodes, disk, flat) && |flat| == |old(flat)|
      ensures ok ==> flat == Splice(old(flat), off, data) && failures == old(failures) && flushFailed == old(flushFailed) && size == old(size)
      ensures Status() && (!ok ==> failures > old(failures) && flushFailed)
      ensures SameOutside(old(flat), flat, off, off + |data|)
    {
      hide Valid, Coherent, AgeOk, ListsOk, Members, Disjoint, EntriesOk, Sorted, Distinct, Total, PieceOf, Linked;
      hide InPiece, Renewed, Splice;
      Parts();
      ghost var disk0 := disk;
      ok := DiskWrite(data, off);
      ghost var there := WrittenThrough(disk0, off, data);
      flat := Splice(flat, off, there);
      Assemble();
    }

    /** What a write past the cache, complete or torn, put on the disk. */
    lemma WrittenThrough(disk0: seq<byte>, off: nat, data: seq<byte>) returns (there: seq<byte>)
      requires Coherent(nodes, disk0, flat) && Uncovered(nodes, off, |data|) && off + |data| <= |disk| == |disk0|
      requires forall i :: 0 <= i < |disk| && !(off <= i < off + |data|) ==> disk[i] == disk0[i]
      ensures |there| == |data| && |flat| == |disk| && Coherent(nodes, disk, Splice(flat, off, there))
      ensures disk == Splice(disk0, off, data) ==> there == data
      ensures SameOutside(flat, Splice(flat, off, there), off, off + |data|)
    {
      there := disk[off..off + |data|];
      assert disk == Splice(disk0, off, there);
      CoherentWriteThrough(nodes, disk0, flat, off, there);
    }

    /** Most of the configured cache: a transfer this long bypasses the cache. */
    function Big(): (r: nat)
      ensures 0 < r < Limit()
    {
      cfgSize * 786432
    }

    /** Put data into the cache, received or read from disk; the range must not be cached. */
    method CacheIO(req: Request, off: nat, len: nat) returns (ok: bool, data: seq<byte>)
      requires Valid() && Coherent(nodes, disk, flat)
      requires InPiece(off, len) && Uncovered(nodes, off, len) && (req.Store? ==> |req.data| == len)
      modifies this`disk, this`flushFailed, this`flushTried, this`size, this`failures, this`flat, nodes`flush
      modifies this`age, this`oldest, this`newest, this`lists, this`nodes, this`used
      modifies head, nodes`next, nodes`prev, nodes`ageNext, nodes`agePrev
      ensures Valid() && Coherent(nodes, disk, flat) && |flat| == |old(flat)|
      ensures forall e :: e in nodes ==> e in old(nodes) || fresh(e)
      ensures req.Fetch? ==> ok && flat == old(flat) && (req.want ==> data == flat[off..off + len])
      ensures req.Store? && ok ==> flat == Splice(old(flat), off, req.data)
      ensures SameOutside(old(flat), flat, off, off + len)
      ensures !ok ==> failures > old(failures)
      ensures len < Big() ==> newest != null && newest in nodes && newest.off == off && newest.len == len && newest.flush == req.Store?
      ensures len < Big() && old(used) + len <= old(size) ==> AddedNewest(len)
      ensures !old(flushFailed) && !flushFailed && old(size) <= Limit() && (len < Big() || old(used) <= old(size)) ==>
        used <= size <= Limit()
      ensures Status() && (!flushFailed ==> !old(flushFailed))
    {
      hide Valid, Coherent, PieceOf, IsNewest, InPiece;
      RangeFacts(off, len);
      ok, data := true, [];
      if len >= Big() {
        match req {
          case Fetch(want) => if want { UncoveredOnDisk(nodes, disk, flat, off, len); data := disk[off..off + len]; }
          case Store(bytes) => ok := WriteThrough(bytes, off);
        }
        return;
      }
      var idx := PieceOf(off, pieceLength);
      if size < used + len {
        CacheClean(len, if req.Fetch? && idx !in have then idx else head.Length);
      }
      RangeFacts(off, len);
      UncoveredOnDisk(nodes, disk, flat, off, len);
      var buf := if req.Fetch? then disk[off..off + len] else req.data;
      if req.Fetch? && req.want { data := buf; }
      AddEntry(off, buf, req.Store?);
    }

    /** There was room: one entry is new, and all else is as it was. */
    twostate predicate AddedNewest(len: nat)
      reads this`nodes, this`age, this`newest, this`used, this`size, nodes`flush
    {
      && newest != null && fresh(newest) && nodes == old(nodes) + {newest} && age == old(age) + [newest]
      && used == old(used) + len && size == old(size) && forall e :: e in old(nodes) ==> e.flush == old(e.flush)
    }

    lemma RangeFacts(off: nat, len: nat)
      requires Valid() && Coherent(nodes, disk, flat) && InPiece(off, len)
      ensures 0 < len && off + len <= |disk| == |flat| == total
    {
    }

    /** `p` is entry `k` of the list of piece `idx`, or null at its end; what precedes it ends by `offset`. */
    ghost predicate Cursor(idx: nat, p: Entry?, k: nat, offset: nat)
      reads this`lists
    {
      && idx < |lists| && k <= |lists[idx]| && p == At(lists[idx], k)
      && (forall j :: 0 <= j < k ==> lists[idx][j].off + lists[idx][j].len <= offset)
    }

    /** Nothing from entry `k` on reaches below `end`. */
    ghost predicate ClearUntil(idx: nat, k: nat, end: nat)
      reads this`lists
    {
      idx < |lists| && (k < |lists[idx]| ==> end <= lists[idx][k].off)
    }

    /** Step over the entries that do not overlap [offset, offset+len) and start before its end. */
    method Skip(idx: nat, p0: Entry?, ghost k0: nat, offset: nat, len: nat) returns (p: Entry?, ghost k: nat)
      requires Valid() && 0 < len && Cursor(idx, p0, k0, offset)
      ensures Cursor(idx, p, k, offset)
      ensures p != null ==> p in nodes && idx < |lists| && k < |lists[idx]| && p == lists[idx][k] && ClearUntil(idx, k, p.off)
      ensures p == null || !p.Fits(offset, len) ==> ClearUntil(idx, k, offset + len)
    {
      hide Valid, PieceOf;
      SizeFacts();
      p, k := p0, k0;
      while p != null && offset + len > p.off && !p.Fits(offset, len)
        invariant Cursor(idx, p, k, offset)
        decreases |lists[idx]| - k
      {
        PieceFacts(idx, k);
        p := p.next;
        k := k + 1;
      }
      if k < |lists[idx]| { PieceFacts(idx, k); }
    }

    lemma SizeFacts()
      requires Valid()
      ensures |lists| == head.Length && (forall e :: e in nodes ==> 0 < e.len == |e.buf|)
    {
      hide PieceOf;
      forall e | e in nodes ensures 0 < e.len == |e.buf| { assert InPiece(e.off, e.len); }
    }

    /** When a scan of the list of its piece finds no overlap, no entry at all overlaps the range. */
    lemma ScannedUncovered(idx: nat, p: Entry?, k: nat, offset: nat, len: nat)
      requires Valid() && Cursor(idx, p, k, offset) && ClearUntil(idx, k, offset + len)
      requires 0 < len && PieceOf(offset, pieceLength) == idx == PieceOf(offset + len - 1, pieceLength)
      ensures Uncovered(nodes, offset, len)
    {
      forall e | e in nodes ensures e.off + e.len <= offset || offset + len <= e.off {
        EntryFacts(e);
        var i := PieceOf(e.off, pieceLength);
        if i == idx {
          var j :| 0 <= j < |lists[idx]| && lists[idx][j] == e;
          assert Ascending(lists[idx]);
        } else if offset < e.off + e.len && e.off < offset + len {
          var x := if e.off > offset then e.off else offset;
          PieceBetween(e.off, x, e.off + e.len - 1, pieceLength);
          PieceBetween(offset, x, offset + len - 1, pieceLength);
          assert false;
        }
      }
    }

    /** A sub-range of a range inside piece `idx`. */
    lemma SubRange(idx: nat, start: nat, end: nat, offset: nat, len: nat)
      requires start <= offset && 0 < len && offset + len <= end <= total && idx < head.Length
      requires PieceOf(start, pieceLength) == idx == PieceOf(end - 1, pieceLength)
      ensures PieceOf(offset, pieceLength) == idx == PieceOf(offset + len - 1, pieceLength)
      ensures InPiece(offset, len)
    {
      PieceBetween(start, offset, end - 1, pieceLength);
      PieceBetween(start, offset + len - 1, end - 1, pieceLength);
    }

    /** Serve part of a read from `p`, from `offset` on; a prefetch only renews the entry. */
    method HitRead(p: Entry, offset: nat, len: nat, want: bool) returns (len2: nat, part: seq<byte>)
      requires Valid() && Coherent(nodes, disk, flat) && p in nodes
      requires p.Fits(offset, len) && p.off <= offset && 0 < len
      modifies this`age, this`oldest, this`newest, nodes`ageNext, nodes`agePrev
      ensures Valid() && Coherent(nodes, disk, flat)
      ensures 0 < len2 <= len && offset + len2 <= |flat|
      ensures len2 == if p.off + p.len - offset > len then len else p.off + p.len - offset
      ensures want ==> part == flat[offset..offset + len2] && age == old(age)
      ensures !want ==> p in old(age) && age == Renewed(old(age), p) && newest == p
    {
      hide *;
      len2 := HitFacts(p, offset, len);
      part := [];
      if want {
        part := p.buf[offset - p.off..offset - p.off + len2];
      } else {
        var moved := Renew(p);
      }
    }

    /** How much of [offset, offset+len) `p` holds from `offset` on. */
    method HitFacts(p: Entry, offset: nat, len: nat) returns (len2: nat)
      requires Valid() && Coherent(nodes, disk, flat) && p in nodes
      requires p.Fits(offset, len) && p.off <= offset && 0 < len
      ensures 0 < len2 <= len && offset + len2 <= |flat|
      ensures len2 == if p.off + p.len - offset > len then len else p.off + p.len - offset
      ensures offset - p.off + len2 <= |p.buf|
      ensures p.buf[offset - p.off..offset - p.off + len2] == flat[offset..offset + len2]
    {
      hide Valid, PieceOf;
      SizeFacts();
      assert p.buf == flat[p.off..p.off + p.len];
      len2 := if p.off + p.len - offset > len then len else p.off + p.len - offset;
    }

    /** Overwrite part of `p`, from `offset` on. */
    method HitWrite(p: Entry, offset: nat, part: seq<byte>)
      requires Valid() && Coherent(nodes, disk, flat) && p in nodes
      requires p.off <= offset && offset + |part| <= p.off + p.len
      modifies this`flat, p`buf, p`flush, this`age, this`oldest, this`newest, nodes`ageNext, nodes`agePrev
      ensures Valid() && Coherent(nodes, disk, flat) && |flat| == |old(flat)|
      ensures offset + |part| <= |flat| && flat == Splice(old(flat), offset, part)
      ensures p.flush && p in old(age) && age == Renewed(old(age), p) && newest == p
    {
      hide *;
      Parts();
      SizeFacts();
      ghost var flat1 := OverwriteFacts(p, offset, part);
      p.buf := Splice(p.buf, offset - p.off, part);
      p.flush := true;
      CoherentClose(nodes, p, disk, flat1);
      flat := flat1;
      EntriesBack(nodes, p);
      Assemble();
      var moved := Renew(p);
    }

    lemma OverwriteFacts(p: Entry, offset: nat, part: seq<byte>) returns (flat1: seq<byte>)
      requires Valid() && Coherent(nodes, disk, flat) && p in nodes
      requires p.off <= offset && offset + |part| <= p.off + p.len
      ensures |p.buf| == p.len && offset + |part| <= |flat| && flat1 == Splice(flat, offset, part)
      ensures CoherentBut(nodes, p, disk, flat1) && EntriesOk(nodes - {p}) && InPiece(p.off, p.len)
      ensures p.off + p.len <= |flat1| == |flat| && Splice(p.buf, offset - p.off, part) == flat1[p.off..p.off + p.len]
    {
      hide PieceOf;
      SizeFacts();
      assert InPiece(p.off, p.len) && p.buf == flat[p.off..p.off + p.len];
      flat1 := Splice(flat, offset, part);
      CoherentOpen(nodes, p, disk, disk, flat, flat1);
    }

    lemma EntriesBack(nodes: set<Entry>, p: Entry)
      requires EntriesOk(nodes - {p}) && InPiece(p.off, p.len) && |p.buf| == p.len
      ensures EntriesOk(nodes)
    {
      hide PieceOf;
      forall e | e in nodes ensures InPiece(e.off, e.len) && |e.buf| == e.len {
        if e != p { assert e in nodes - {p}; }
      }
    }

    /** [start, end) lies in piece `idx`. */
    ghost predicate RangeIn(idx: nat, start: nat, end: nat) {
      && start <= end <= total && idx < head.Length
      && (start < end ==> PieceOf(start, pieceLength) == idx == PieceOf(end - 1, pieceLength))
    }

    /** The entry to look at first for a range in piece `idx`. */
    lemma StartCursor(idx: nat, offset: nat)
      requires Valid() && idx < head.Length
      ensures Cursor(idx, head[idx], 0, offset)
    {
      HeadFacts(idx);
    }

    /** The part of [offset, end) before `stop` is in no entry when the scan says so. */
    lemma GapUncovered(idx: nat, p: Entry?, k: nat, start: nat, offset: nat, stop: nat, end: nat)
      requires Valid() && RangeIn(idx, start, end) && start <= offset < stop <= end
      requires Cursor(idx, p, k, offset) && (p == null || ClearUntil(idx, k, stop))
      ensures InPiece(offset, stop - offset) && Uncovered(nodes, offset, stop - offset)
    {
      hide Valid, PieceOf;
      SubRange(idx, start, end, offset, stop - offset);
      ScannedUncovered(idx, p, k, offset, stop - offset);
    }

    lemma NextCursor(idx: nat, p: Entry, k: nat, offset: nat)
      requires Valid() && idx < |lists| && k < |lists[idx]| && p == lists[idx][k]
      requires p.off + p.len <= offset
      ensures Cursor(idx, p.next, k + 1, offset)
    {
      hide PieceOf;
      assert Ascending(lists[idx]) && Linked(lists[idx], head[idx]);
      SizeFacts();
    }

    ghost function Now(): Cached
      reads this`nodes, this`age, this`newest, this`used, this`size, nodes`flush
    {
      Cached(nodes, age, newest, Dirty(), used, size)
    }

    /** Serve the first bytes of a read whose range overlaps `p`: the gap before it, or what it holds. */
    method ReadStep(want: bool, idx: nat, p0: Entry, ghost k0: nat, ghost start: nat, offset: nat, len: nat, ghost s0: Cached)
      returns (len2: nat, part: seq<byte>, p: Entry?, ghost k: nat)
      requires Valid() && Coherent(nodes, disk, flat) && 0 < len && start <= offset && RangeIn(idx, start, offset + len)
      requires p0 in nodes && idx < |lists| && k0 < |lists[idx]| && p0 == lists[idx][k0] && p0.Fits(offset, len)
      requires Cursor(idx, p0, k0, offset) && ClearUntil(idx, k0, p0.off)
      requires Served(want, Big(), s0, Now(), start, offset, offset + len)
      modifies this`disk, this`flushFailed, this`flushTried, this`size, this`failures, this`flat, nodes`flush
      modifies this`age, this`oldest, this`newest, this`lists, this`nodes, this`used
      modifies head, nodes`next, nodes`prev, nodes`ageNext, nodes`agePrev
      ensures Valid() && Coherent(nodes, disk, flat) && flat == old(flat)
      ensures 0 < len2 <= len && offset + len2 <= |flat| && (want ==> part == flat[offset..offset + len2])
      ensures Served(want, Big(), s0, Now(), start, offset + len2, offset + len)
      ensures len2 < len ==> Cursor(idx, p, k, offset + len2)
      ensures forall e :: e in nodes ==> e in old(nodes) || fresh(e)
      ensures Status() && (!flushFailed ==> !old(flushFailed))
    {
      hide Valid, Coherent, PieceOf, InPiece, Cursor, ClearUntil, RangeIn, Uncovered, Served, Renewed;
      FlatSize(idx, start, offset + len);
      ghost var s1 := Now();
      if offset < p0.off {
        len2 := p0.off - offset;
        GapUncovered(idx, p0, k0, start, offset, p0.off, offset + len);
        MeetsEntry(want, s0, start, offset, offset + len, p0);
        var ok;
        ok, part := CacheIO(Fetch(want), offset, len2);
        ServedGap(want, Big(), s0, s1, Now(), start, offset, offset + len, len2);
        StartCursor(idx, offset + len2);
        p, k := head[idx], 0;
      } else {
        NodesApart(p0);
        len2, part := HitRead(p0, offset, len, want);
        ServedHit(want, Big(), s0, s1, Now(), start, offset, offset + len, p0, len2);
        if len2 < len { NextCursor(idx, p0, k0, offset + len2); }
        p, k := p0.next, k0 + 1;
      }
    }

    lemma NodesApart(p: Entry)
      requires Valid() && p in nodes
      ensures Disjoint(nodes) && p in age
    {
      hide PieceOf;
    }

    /** Entry `p` is in the range, so it is not one that is not cached at all. */
    lemma MeetsEntry(want: bool, s0: Cached, start: nat, at: nat, end: nat, p: Entry)
      requires start <= at < end && Served(want, Big(), s0, Now(), start, at, end)
      requires Valid() && p in nodes && at < p.off && p.Fits(at, end - at)
      ensures !(Uncovered(s0.nodes, start, end - start) && at == start)
    {
      hide PieceOf;
      SizeFacts();
      assert !(p.off + p.len <= at || end <= p.off);
    }

    lemma ServedFirst(want: bool, s0: Cached, start: nat, len: nat)
      requires s0 == Now()
      ensures Served(want, Big(), s0, Now(), start, start, start + len)
    {
      hide Renewed;
    }

    /** The rest of a read, which no entry overlaps. */
    method ReadRest(want: bool, idx: nat, p: Entry?, ghost k: nat, ghost start: nat, offset: nat, len: nat, ghost s0: Cached)
      returns (part: seq<byte>)
      requires Valid() && Coherent(nodes, disk, flat) && 0 < len && start <= offset && RangeIn(idx, start, offset + len)
      requires Cursor(idx, p, k, offset) && (p == null || ClearUntil(idx, k, offset + len))
      requires Served(want, Big(), s0, Now(), start, offset, offset + len)
      modifies this`disk, this`flushFailed, this`flushTried, this`size, this`failures, this`flat, nodes`flush
      modifies this`age, this`oldest, this`newest, this`lists, this`nodes, this`used
      modifies head, nodes`next, nodes`prev, nodes`ageNext, nodes`agePrev
      ensures Valid() && Coherent(nodes, disk, flat) && flat == old(flat) && offset + len <= |flat|
      ensures want ==> part == flat[offset..offset + len]
      ensures Served(want, Big(), s0, Now(), start, offset + len, offset + len)
      ensures forall e :: e in nodes ==> e in old(nodes) || fresh(e)
      ensures Status() && (!flushFailed ==> !old(flushFailed))
    {
      hide Valid, Coherent, PieceOf, InPiece, Cursor, ClearUntil, RangeIn, Uncovered, Served, Renewed;
      FlatSize(idx, start, offset + len);
      ghost var s1 := Now();
      GapUncovered(idx, p, k, start, offset, offset + len, offset + len);
      var ok;
      ok, part := CacheIO(Fetch(want), offset, len);
      ServedGap(want, Big(), s0, s1, Now(), start, offset, offset + len, len);
    }

    /** Read `len0` bytes at `off` of piece `idx`, from the cache and the disk. */
    method ReadSlice(want: bool, idx: nat, off: nat, len0: nat) returns (data: seq<byte>)
      requires Valid() && Coherent(nodes, disk, flat) && 0 < size && SliceOk(idx, off, len0)
      modifies this`disk, this`flushFailed, this`flushTried, this`size, this`failures, this`flat, nodes`flush
      modifies this`age, this`oldest, this`newest, this`lists, this`nodes, this`used
      modifies head, nodes`next, nodes`prev, nodes`ageNext, nodes`agePrev
      ensures Valid() && Coherent(nodes, disk, flat) && flat == old(flat) && OffsetOf(idx, off) + len0 <= |flat|
      ensures want ==> data == flat[OffsetOf(idx, off)..OffsetOf(idx, off) + len0]
      ensures ReadFits(want, Big(), old(Now()), Now(), OffsetOf(idx, off), OffsetOf(idx, off) + len0)
      ensures forall e :: e in nodes ==> e in old(nodes) || fresh(e)
      ensures Status() && (!flushFailed ==> !old(flushFailed))
    {
      hide Valid, Coherent, PieceOf, InPiece, Cursor, ClearUntil, RangeIn, Uncovered, SliceOk, OffsetOf, Served;
      hide ReadFits;
      SliceRange(idx, off, len0);
      var offset0 := OffsetOf(idx, off);
      FlatSize(idx, offset0, offset0 + len0);
      data := [];
      var offset: nat, len: nat := offset0, len0;
      ghost var s0 := Now();
      ServedFirst(want, s0, offset0, len0);
      StartCursor(idx, offset);
      var p := head[idx];
      ghost var k := 0;
      while len > 0 && p != null
        invariant Valid() && Coherent(nodes, disk, flat) && flat == old(flat)
        invariant offset0 <= offset && offset + len == offset0 + len0
        invariant want ==> data == flat[offset0..offset]
        invariant 0 < len ==> Cursor(idx, p, k, offset)
        invariant Served(want, Big(), s0, Now(), offset0, offset, offset0 + len0)
        invariant forall e :: e in nodes ==> e in old(nodes) || fresh(e)
        invariant Status() && (!flushFailed ==> !old(flushFailed))
        decreases len
      {
        p, k := Skip(idx, p, k, offset, len);
        if p == null || !p.Fits(offset, len) { break; }
        var len2, part;
        len2, part, p, k := ReadStep(want, idx, p, k, offset0, offset, len, s0);
        assert flat[offset0..offset] + flat[offset..offset + len2] == flat[offset0..offset + len2];
        if want { data := data + part; }
        offset, len := offset + len2, len - len2;
      }
      if len > 0 {
        var part := ReadRest(want, idx, p, k, offset0, offset, len, s0);
        assert flat[offset0..offset] + flat[offset..offset + len] == flat[offset0..offset + len];
        if want { data := data + part; }
      }
      ServedFits(want, Big(), s0, Now(), offset0, offset0 + len0);
    }

    /** The newest entry is to be written back, and has the byte before `end`. */
    ghost predicate DirtyNewest(end: nat)
      reads this`newest, this`nodes, nodes`flush
    {
      newest != null && newest in nodes && newest.flush && newest.Covers(end - 1)
    }

    /** Store the first bytes of a write whose range overlaps `p`: in the gap before it, or over what it holds. */
    method WriteStep(buf: seq<byte>, idx: nat, p0: Entry, ghost k0: nat, ghost start: nat, offset: nat)
      returns (ok: bool, len2: nat, p: Entry?, ghost k: nat)
      requires Valid() && Coherent(nodes, disk, flat) && 0 < |buf| && start <= offset && RangeIn(idx, start, offset + |buf|)
      requires p0 in nodes && idx < |lists| && k0 < |lists[idx]| && p0 == lists[idx][k0] && p0.Fits(offset, |buf|)
      requires Cursor(idx, p0, k0, offset) && ClearUntil(idx, k0, p0.off)
      modifies this`disk, this`flushFailed, this`flushTried, this`size, this`failures, this`flat, nodes`flush, nodes`buf
      modifies this`age, this`oldest, this`newest, this`lists, this`nodes, this`used
      modifies head, nodes`next, nodes`prev, nodes`ageNext, nodes`agePrev
      ensures Valid() && Coherent(nodes, disk, flat) && |flat| == |old(flat)| && offset + |buf| <= |flat|
      ensures 0 < len2 <= |buf|
      ensures ok ==> flat == Splice(old(flat), offset, buf[..len2])
      ensures SameOutside(old(flat), flat, offset, offset + |buf|)
      ensures !ok ==> failures > old(failures) && flushFailed
      ensures len2 < Big() ==> DirtyNewest(offset + len2)
      ensures len2 < |buf| ==> Cursor(idx, p, k, offset + len2)
      ensures forall e :: e in nodes ==> e in old(nodes) || fresh(e)
      ensures Status() && (!flushFailed ==> !old(flushFailed))
    {
      hide Valid, Coherent, PieceOf, InPiece, Cursor, ClearUntil, RangeIn, Uncovered;
      FlatSize(idx, start, offset + |buf|);
      SizeFacts();
      if offset < p0.off {
        len2 := p0.off - offset;
        GapUncovered(idx, p0, k0, start, offset, p0.off, offset + |buf|);
        var data;
        ok, data := CacheIO(Store(buf[..len2]), offset, len2);
        StartCursor(idx, offset + len2);
        p, k := head[idx], 0;
      } else {
        len2 := if p0.off + p0.len - offset > |buf| then |buf| else p0.off + p0.len - offset;
        HitWrite(p0, offset, buf[..len2]);
        ok := true;
        if len2 < |buf| { NextCursor(idx, p0, k0, offset + len2); }
        p, k := p0.next, k0 + 1;
      }
    }

    /** Store `buf` at `off` of piece `idx`. */
    method WriteSlice(buf: seq<byte>, idx: nat, off: nat) returns (ok: bool)
      requires Valid() && Coherent(nodes, disk, flat) && 0 < size && SliceOk(idx, off, |buf|)
      modifies this`disk, this`flushFailed, this`flushTried, this`size, this`failures, this`flat, nodes`flush, nodes`buf
      modifies this`age, this`oldest, this`newest, this`lists, this`nodes, this`used
      modifies head, nodes`next, nodes`prev, nodes`ageNext, nodes`agePrev
      ensures Valid() && Coherent(nodes, disk, flat) && |flat| == |old(flat)| && OffsetOf(idx, off) + |buf| <= |flat|
      ensures ok ==> flat == Splice(old(flat), OffsetOf(idx, off), buf)
      ensures SameOutside(old(flat), flat, OffsetOf(idx, off), OffsetOf(idx, off) + |buf|)
      ensures !ok ==> failures > old(failures) && flushFailed
      ensures 0 < |buf| < Big() ==> DirtyNewest(OffsetOf(idx, off) + |buf|) || !ok
      ensures forall e :: e in nodes ==> e in old(nodes) || fresh(e)
      ensures Status() && (!flushFailed ==> !old(flushFailed))
    {
      hide Valid, Coherent, PieceOf, InPiece, Cursor, ClearUntil, RangeIn, Uncovered, Splice, SameOutside, SliceOk;
      hide OffsetOf, DirtyNewest;
      SliceRange(idx, off, |buf|);
      var offset0 := OffsetOf(idx, off);
      FlatSize(idx, offset0, offset0 + |buf|);
      NothingWritten(flat, offset0, buf);
      ok := true;
      var done: nat := 0;
      StartCursor(idx, offset0);
      var p := head[idx];
      ghost var k := 0;
      while done < |buf| && p != null
        invariant Valid() && Coherent(nodes, disk, flat) && |flat| == |old(flat)| && done <= |buf|
        invariant flat == Splice(old(flat), offset0, buf[..done]) && SameOutside(old(flat), flat, offset0, offset0 + |buf|)
        invariant done < |buf| ==> Cursor(idx, p, k, offset0 + done)
        invariant 0 < done && |buf| < Big() ==> DirtyNewest(offset0 + done)
        invariant forall e :: e in nodes ==> e in old(nodes) || fresh(e)
        invariant Status() && (!flushFailed ==> !old(flushFailed))
        decreases |buf| - done
      {
        p, k := Skip(idx, p, k, offset0 + done, |buf| - done);
        if p == null || !p.Fits(offset0 + done, |buf| - done) { break; }
        var len2;
        ghost var flat0 := flat;
        ok, len2, p, k := WriteStep(buf[done..], idx, p, k, offset0, offset0 + done);
        SameOutsideChain(old(flat), flat0, flat, offset0, offset0 + |buf|, offset0 + done, offset0 + |buf|);
        if !ok { return; }
        WrittenSoFar(old(flat), offset0, buf, done, len2);
        done := done + len2;
      }
      if done < |buf| {
        ok := WriteRest(buf, idx, p, k, offset0, done, old(flat));
      }
    }

    /** The rest of a slice, which no entry overlaps. */
    method WriteRest(buf: seq<byte>, idx: nat, p: Entry?, ghost k: nat, offset0: nat, done: nat, ghost flat0: seq<byte>)
      returns (ok: bool)
      requires Valid() && Coherent(nodes, disk, flat) && done < |buf| && RangeIn(idx, offset0, offset0 + |buf|)
      requires offset0 + |buf| <= |flat0| == |flat| && flat == Splice(flat0, offset0, buf[..done])
      requires SameOutside(flat0, flat, offset0, offset0 + |buf|)
      requires Cursor(idx, p, k, offset0 + done) && (p == null || ClearUntil(idx, k, offset0 + |buf|))
      modifies this`disk, this`flushFailed, this`flushTried, this`size, this`failures, this`flat, nodes`flush
      modifies this`age, this`oldest, this`newest, this`lists, this`nodes, this`used
      modifies head, nodes`next, nodes`prev, nodes`ageNext, nodes`agePrev
      ensures Valid() && Coherent(nodes, disk, flat) && |flat| == |old(flat)|
      ensures ok ==> flat == Splice(flat0, offset0, buf)
      ensures SameOutside(flat0, flat, offset0, offset0 + |buf|)
      ensures !ok ==> failures > old(failures) && flushFailed
      ensures |buf| < Big() ==> DirtyNewest(offset0 + |buf|)
      ensures forall e :: e in nodes ==> e in old(nodes) || fresh(e)
      ensures Status() && (!flushFailed ==> !old(flushFailed))
    {
      hide Valid, Coherent, PieceOf, InPiece, Cursor, ClearUntil, RangeIn, Uncovered, Splice, SameOutside, SliceOk;
      hide OffsetOf;
      GapUncovered(idx, p, k, offset0, offset0 + done, offset0 + |buf|, offset0 + |buf|);
      var data;
      ok, data := CacheIO(Store(buf[done..]), offset0 + done, |buf| - done);
      SameOutsideChain(flat0, old(flat), flat, offset0, offset0 + |buf|, offset0 + done, offset0 + |buf|);
      if ok { WrittenSoFar(flat0, offset0, buf, done, |buf| - done); }
      assert buf[..|buf|] == buf;
    }

    lemma NothingWritten(flat0: seq<byte>, offset0: nat, buf: seq<byte>)
      requires offset0 + |buf| <= |flat0|
      ensures Splice(flat0, offset0, buf[..0]) == flat0 && SameOutside(flat0, flat0, offset0, offset0 + |buf|)
      ensures buf[..|buf|] == buf
    {
    }

    lemma WrittenSoFar(flat0: seq<byte>, offset0: nat, buf: seq<byte>, done: nat, len2: nat)
      requires offset0 + |buf| <= |flat0| && done + len2 <= |buf|
      ensures Splice(Splice(flat0, offset0, buf[..done]), offset0 + done, buf[done..][..len2])
           == Splice(flat0, offset0, buf[..done + len2])
      ensures buf[done..][..|buf| - done] == buf[done..] && buf[..|buf|] == buf
    {
    }

    lemma FlatSize(idx: nat, start: nat, end: nat)
      requires Valid() && Coherent(nodes, disk, flat) && RangeIn(idx, start, end)
      ensures end <= |flat| == total && idx < head.Length == |lists|
    {
    }

    /** The length of piece `idx`. */
    function LenOf(idx: nat): nat { PieceLen(total, pieceLength, head.Length, idx) }

    /** The torrent offset of byte `off` of piece `idx`. */
    function OffsetOf(idx: nat, off: nat): nat { idx * pieceLength + off }

    /** A slice of an existing piece, in a torrent with as many pieces as its length needs. */
    ghost predicate SliceOk(idx: nat, off: nat, len: nat) {
      head.Length == NPieces(total, pieceLength) && idx < head.Length && off + len <= LenOf(idx)
    }

    lemma SliceRange(idx: nat, off: nat, len: nat)
      requires SliceOk(idx, off, len)
      ensures RangeIn(idx, OffsetOf(idx, off), OffsetOf(idx, off) + len)
    {
      if len > 0 {
        SliceInPiece(total, pieceLength, idx, off, len);
      } else {
        PieceEnd(total, pieceLength, idx);
      }
    }

    /** The entries of a piece hold at most its length. */
    lemma PieceBound(idx: nat)
      requires Valid() && idx < head.Length
      ensures |lists| == head.Length && Total(lists[idx]) <= LenOf(idx)
    {
      var s := lists[idx];
      var lo := idx * pieceLength;
      var hi := if total < lo + pieceLength && lo <= total then total else lo + pieceLength;
      assert Ascending(s) && Linked(s, head[idx]);
      forall i | 0 <= i < |s| ensures lo <= s[i].off && s[i].off + s[i].len <= hi {
        assert s[i] in s;
        EntryFacts(s[i]);
        DivRange(s[i].off, idx, pieceLength);
        DivRange(s[i].off + s[i].len - 1, idx, pieceLength);
      }
      TotalBound(s, lo, hi);
      if idx == total / pieceLength { DivRange(total, idx, pieceLength); }
    }

    /** One step of CachePrep: an entry of another piece is written back if dirty, then dropped. */
    method PrepStep(p: Entry, ghost k: nat, idx: nat) returns (pnext: Entry?, ghost k': nat)
      requires Valid() && k < |age| && age[k] == p
      requires forall i :: 0 <= i < k ==> PieceOf(age[i].off, pieceLength) == idx
      modifies this`disk, this`flushFailed, this`flushTried, this`size, this`failures, nodes`flush
      modifies this`age, this`oldest, this`newest, this`lists, this`nodes, this`used
      modifies head, nodes`next, nodes`prev, nodes`ageNext, nodes`agePrev
      ensures Valid() && nodes <= old(nodes)
      ensures k' <= |age| && pnext == (if k' < |age| then age[k'] else null)
      ensures forall i :: 0 <= i < k' ==> PieceOf(age[i].off, pieceLength) == idx
      ensures old(Coherent(nodes, disk, flat)) && !flushFailed ==> Coherent(nodes, disk, flat)
      ensures forall e :: e in old(nodes) && e.flush ==> old(e.flush) && (e in nodes || flushFailed)
      ensures |lists| == |old(lists)| && (idx < |lists| ==> lists[idx] == old(lists)[idx])
      ensures !old(flushFailed) && !flushFailed ==> size == old(size)
      ensures Status() && (!flushFailed ==> !old(flushFailed))
      ensures (!old(flushFailed) && flushFailed) || Dirty() < old(Dirty()) || (Dirty() <= old(Dirty()) && |age| - k' < |old(age)| - k)
      ensures Dropped(old(nodes), old(used), nodes, used, p)
      ensures !old(p.flush) ==>
        if PieceOf(p.off, pieceLength) == idx then age == old(age) && nodes == old(nodes) && k' == k + 1
        else age == Without(old(age), k) && nodes == old(nodes) - {p} && k' == k
    {
      hide Valid, Coherent, PieceOf, IsNewest;
      ghost var dirty := Dirty();
      AgeFacts(k);
      pnext, k' := p.ageNext, k + 1;
      if PieceOf(p.off, pieceLength) == idx { return; }
      if p.flush && !flushFailed {
        var moved := FlushPiece(PieceOf(p.off, pieceLength));
        assert !flushFailed ==> p !in Dirty() && Dirty() <= dirty;
        if moved {
          AgeFacts(0);
          pnext, k' := oldest, 0;
          return;
        }
      }
      Evict(p, k);
      k' := k;
    }

    /** As PrepStep, and what it makes of the entries in `was`, where the scan began; if nothing was dirty then, they go
        oldest first. */
    method PrepNext(p: Entry, ghost k: nat, idx: nat, ghost clean: bool, ghost was: seq<Entry>, ghost may: set<Entry>, ghost q: nat,
                    ghost nodes0: set<Entry>, ghost used0: nat, ghost size0: nat, ghost need: nat) returns (pnext: Entry?, ghost k': nat)
      requires Valid() && k < |age| && age[k] == p
      requires forall i :: 0 <= i < k ==> PieceOf(age[i].off, pieceLength) == idx
      requires Distinct(was) && nodes <= nodes0 && size0 <= size < used + need && Needed(nodes0, used0, size0, nodes, used, need)
      requires clean ==> Scanned(was, may, q, age, k, nodes) && !p.flush && (p in may <==> PieceOf(p.off, pieceLength) != idx)
      modifies this`disk, this`flushFailed, this`flushTried, this`size, this`failures, nodes`flush
      modifies this`age, this`oldest, this`newest, this`lists, this`nodes, this`used
      modifies head, nodes`next, nodes`prev, nodes`ageNext, nodes`agePrev
      ensures Valid() && nodes <= old(nodes)
      ensures k' <= |age| && pnext == (if k' < |age| then age[k'] else null)
      ensures forall i :: 0 <= i < k' ==> PieceOf(age[i].off, pieceLength) == idx
      ensures old(Coherent(nodes, disk, flat)) && !flushFailed ==> Coherent(nodes, disk, flat)
      ensures forall e :: e in old(nodes) && e.flush ==> old(e.flush) && (e in nodes || flushFailed)
      ensures |lists| == |old(lists)| && (idx < |lists| ==> lists[idx] == old(lists)[idx])
      ensures Status() && (!flushFailed ==> !old(flushFailed))
      ensures (!old(flushFailed) && flushFailed) || Dirty() < old(Dirty()) || (Dirty() <= old(Dirty()) && |age| - k' < |old(age)| - k)
      ensures Needed(nodes0, used0, size0, nodes, used, need)
      ensures clean ==> Scanned(was, may, q + 1, age, k', nodes)
    {
      hide Valid, Coherent, PieceOf, IsNewest, Scanned, Needed, Dropped, Distinct, Dirty;
      ghost var age1, nodes1, used1 := age, nodes, used;
      pnext, k' := PrepStep(p, k, idx);
      NeededNext(nodes0, used0, size0, nodes1, used1, nodes, used, p, need);
      if clean { ScanNext(was, may, q, age1, k, nodes1, age, k', nodes); }
    }

    /** Prepare for prefetching piece `idx`. While no write fails nothing dirty is lost. */
    method CachePrep(idx: nat) returns (prefetch: bool)
      requires Valid() && idx < head.Length == |lists|
      modifies this`disk, this`flushFailed, this`flushTried, this`size, this`failures, nodes`flush
      modifies this`age, this`oldest, this`newest, this`lists, this`nodes, this`used
      modifies head, nodes`next, nodes`prev, nodes`ageNext, nodes`agePrev
      ensures Valid() && nodes <= old(nodes)
      ensures old(Coherent(nodes, disk, flat)) && !flushFailed ==> Coherent(nodes, disk, flat)
      ensures forall e :: e in old(nodes) && e.flush ==> old(e.flush) && (e in nodes || flushFailed)
      ensures |lists| == |old(lists)| && lists[idx] == old(lists)[idx]
      ensures Total(lists[idx]) <= LenOf(idx)
      ensures prefetch <==> old(used) + LenOf(idx) <= old(size) || Total(lists[idx]) < LenOf(idx)
      ensures prefetch ==> used + LenOf(idx) - Total(lists[idx]) <= size || forall e :: e in nodes ==> PieceOf(e.off, pieceLength) == idx
      ensures Status() && (!flushFailed ==> !old(flushFailed))
      ensures Needed(old(nodes), old(used), old(size), nodes, used, LenOf(idx) - Total(lists[idx]))
      ensures old(Dirty()) == {} ==> OldestFirst(old(age), old(Spent(idx)), nodes)
    {
      hide Valid, Coherent, PieceOf, LenOf, Total, Needed, OldestFirst, Scanned, Distinct, Spent;
      ScanStart(idx);
      AgeNodes();
      ghost var was, may, q: nat, clean := age, Spent(idx), 0, Dirty() == {};
      NothingGone(was, may);
      PieceBound(idx);
      var need := LenOf(idx);
      if size < used + need {
        need := StillNeeded(idx, need);
        if need == 0 { return false; }
        AgeFacts(0);
        var p := oldest;
        ghost var k: nat := 0;
        while p != null && size < used + need
          invariant Valid() && nodes <= old(nodes) && k <= |age|
          invariant p == (if k < |age| then age[k] else null)
          invariant old(Coherent(nodes, disk, flat)) && !flushFailed ==> Coherent(nodes, disk, flat)
          invariant forall e :: e in old(nodes) && e.flush ==> old(e.flush) && (e in nodes || flushFailed)
          invariant forall i :: 0 <= i < k ==> PieceOf(age[i].off, pieceLength) == idx
          invariant |lists| == |old(lists)| && lists[idx] == old(lists)[idx]
          invariant Status() && (!flushFailed ==> !old(flushFailed))
          invariant Needed(old(nodes), old(used), old(size), nodes, used, need)
          invariant clean ==> Scanned(was, may, q, age, k, nodes)
          decreases !flushFailed, Dirty(), |age| - k
        {
          AgeFacts(k);
          assert clean ==> p !in old(Dirty());
          p, k := PrepNext(p, k, idx, clean, was, may, q, old(nodes), old(used), old(size), need);
          q := q + 1;
        }
        AgeFacts(|age|);
        if clean { ScanDone(was, may, q, k); }
      }
      prefetch := true;
    }

    lemma NothingGone(was: seq<Entry>, may: set<Entry>)
      requires Valid() && was == age
      ensures OldestFirst(was, may, nodes)
    {
      AgeNodes();
      hide Valid;
    }

    /** `need` less what the piece already has cached. */
    method StillNeeded(idx: nat, need0: nat) returns (need: nat)
      requires Valid() && idx < head.Length == |lists| && Total(lists[idx]) <= need0
      ensures need == need0 - Total(lists[idx])
    {
      hide Valid, PieceOf;
      HeadFacts(idx);
      need := need0;
      var p := head[idx];
      ghost var j := 0;
      while p != null
        invariant j <= |lists[idx]| && p == At(lists[idx], j)
        invariant Total(lists[idx]) <= need0 && need == need0 - Total(lists[idx]) + Total(lists[idx][j..])
        decreases |lists[idx]| - j
      {
        PieceFacts(idx, j);
        assert lists[idx][j..][1..] == lists[idx][j + 1..];
        need := need - p.len;
        p := p.next;
        j := j + 1;
      }
    }

    /** Write back everything. Without a failure nothing is left dirty: the disk is the flat array. */
    method FlushCache()
      requires Valid() && Coherent(nodes, disk, flat)
      modifies this`disk, this`flushFailed, this`flushTried, this`size, this`failures, nodes`flush
      modifies this`age, this`oldest, this`newest, nodes`ageNext, nodes`agePrev
      ensures Valid() && Coherent(nodes, disk, flat)
      ensures !flushFailed ==> Dirty() == {} && disk == flat
      ensures Status()
    {
      hide Valid, Coherent, PieceOf, IsNewest;
      SizeFacts();
      var i := 0;
      while i < head.Length
        invariant Valid() && Coherent(nodes, disk, flat) && i <= head.Length == |lists|
        invariant if i == 0 then flushFailed == old(flushFailed) && failures == old(failures) else !flushFailed
        invariant forall j, e :: 0 <= j < i && e in lists[j] ==> !e.flush
        invariant Status()
      {
        HeadFacts(i);
        if head[i] != null {
          var moved := FlushPiece(i);
        }
        if flushFailed { return; }
        i := i + 1;
      }
      NothingDirty();
    }

    lemma NothingDirty()
      requires Valid() && Coherent(nodes, disk, flat)
      requires forall j, e :: 0 <= j < |lists| && e in lists[j] ==> !e.flush
      ensures Dirty() == {} && disk == flat
    {
      hide PieceOf;
      forall e | e in nodes ensures !e.flush {
        assert e in lists[PieceOf(e.off, pieceLength)];
      }
      forall i | 0 <= i < |flat| ensures disk[i] == flat[i] {
        assert !DirtyAt(nodes, i);
      }
    }

    /** What is left of the nodes and of the lists without piece `idx`. */
    lemma UncacheFacts(idx: nat) returns (left: set<Entry>)
      requires Valid() && idx < head.Length
      ensures |lists| == head.Length && left == set e | e in nodes && PieceOf(e.off, pieceLength) != idx
      ensures forall e :: e in nodes ==> (e in left <==> e !in lists[idx])
      ensures Disjoint(left) && EntriesOk(left)
      ensures Sorted(lists[idx := []], pieceLength) && forall i, e :: 0 <= i < |lists| && i != idx && e in lists[i] ==> e in left
      ensures forall i :: 0 <= i < |lists| ==> Linked(lists[i], head[i])
    {
      hide PieceOf;
      left := set e | e in nodes && PieceOf(e.off, pieceLength) != idx;
    }

    lemma UncacheCoherent(idx: nat, left: set<Entry>)
      requires Valid() && Coherent(nodes, disk, flat)
      requires left == set e | e in nodes && PieceOf(e.off, pieceLength) != idx
      ensures |flat| == |disk| && Coherent(left, disk, Reverted(flat, disk, idx, pieceLength))
    {
      forall e | e in nodes ensures OnePiece(e, pieceLength) {
        EntryFacts(e);
        forall i: nat | e.Covers(i) ensures PieceOf(i, pieceLength) == PieceOf(e.off, pieceLength) {
          PieceBetween(e.off, i, e.off + e.len - 1, pieceLength);
        }
      }
      hide Valid;
      CoherentReverted(nodes, disk, flat, idx, pieceLength);
    }

    lemma UnlinkFacts(idx: nat, j: nat)
      requires ListsOk() && idx < head.Length == |lists| && j < |lists[idx]|
      ensures lists[idx][j].next == At(lists[idx], j + 1) && lists[idx][j] in nodes
      ensures forall i :: 0 <= i < j ==> lists[idx][i] != lists[idx][j]
    {
      hide PieceOf;
      assert Linked(lists[idx], head[idx]);
    }

    lemma MembersLeft(age0: seq<Entry>, age': seq<Entry>, left: set<Entry>, idx: nat)
      requires Members(age0, lists, nodes, pieceLength) && idx < |lists|
      requires left == set e | e in nodes && PieceOf(e.off, pieceLength) != idx
      requires (forall e :: e in age' ==> e in left) && (forall e :: e in left ==> e in age')
      ensures Members(age', lists[idx := []], left, pieceLength)
    {
      hide PieceOf;
    }

    /** Drop a piece from the cache, dirty or not: its bytes are again those on disk, and nothing else changes. */
    method Uncache(idx: nat)
      requires Valid() && Coherent(nodes, disk, flat) && idx < head.Length
      modifies this`age, this`oldest, this`newest, this`lists, this`nodes, this`used, this`flat
      modifies head, nodes`ageNext, nodes`agePrev
      ensures Valid() && Coherent(nodes, disk, flat)
      ensures |lists| == |old(lists)| && lists[idx] == [] && forall i :: 0 <= i < |lists| && i != idx ==> lists[i] == old(lists)[i]
      ensures |old(flat)| == |disk| && flat == Reverted(old(flat), disk, idx, pieceLength)
    {
      hide *;
      ghost var left := UncacheFacts(idx);
      UncacheCoherent(idx, left);
      Parts();
      HeadFacts(idx);
      ghost var reverted, age0 := Reverted(flat, disk, idx, pieceLength), age;
      DropAge(idx);
      MembersLeft(age0, age, left, idx);
      head[idx] := null;
      lists := lists[idx := []];
      nodes := left;
      flat := reverted;
      AssembleLists();
      Assemble();
    }

    /** Take every entry of piece `idx` out of the age list. */
    method DropAge(idx: nat)
      requires AgeOk() && Distinct(age) && ListsOk() && idx < head.Length == |lists| && used == Total(age)
      requires forall e :: e in age <==> e in nodes
      requires head[idx] == At(lists[idx], 0)
      modifies this`age, this`oldest, this`newest, this`used, nodes`ageNext, nodes`agePrev
      ensures AgeOk() && used == Total(age)
      ensures forall e :: e in age ==> e in nodes && e !in lists[idx]
      ensures forall e :: e in nodes && e !in lists[idx] ==> e in age
    {
      hide PieceOf, AgeOk, Distinct, ListsOk, Sorted, Total, Linked;
      var p := head[idx];
      ghost var j := 0;
      while p != null
        invariant AgeOk() && Distinct(age) && j <= |lists[idx]| && p == At(lists[idx], j)
        invariant forall e :: e in age ==> e in nodes && forall i :: 0 <= i < j ==> lists[idx][i] != e
        invariant forall e :: e in nodes && (forall i :: 0 <= i < j ==> lists[idx][i] != e) ==> e in age
        invariant used == Total(age)
        decreases |lists[idx]| - j
      {
        UnlinkFacts(idx, j);
        ghost var k :| 0 <= k < |age| && age[k] == p;
        TotalWithout(age, k);
        WithoutDistinct(age, k);
        AgeUnlink(p, k);
        used := used - p.len;
        p := p.next;
        j := j + 1;
      }
    }

    /** A new size from CacheEval; a smaller one cleans the cache, unless a write has failed. */
    method Configure(newSize: nat)
      requires Valid() && Coherent(nodes, disk, flat) && 0 < newSize <= Limit()
      modifies this`disk, this`flushFailed, this`flushTried, this`size, this`failures, nodes`flush
      modifies this`age, this`oldest, this`newest, this`lists, this`nodes, this`used
      modifies head, nodes`next, nodes`prev, nodes`ageNext, nodes`agePrev
      ensures Valid() && Coherent(nodes, disk, flat) && nodes <= old(nodes) && 0 < newSize <= size
      ensures old(failures) <= failures && (!old(flushFailed) ==> (flushFailed <==> failures > old(failures)))
      ensures !old(flushFailed) && !flushFailed ==> used <= size <= Limit()
      ensures !old(flushFailed) && !flushFailed ==>
        size == newSize || (size in {used, Limit()} && forall e :: e in old(Spent(head.Length)) ==> e !in nodes)
      ensures !old(flushFailed) ==>
        Needed(old(nodes), old(used), newSize, nodes, used, 0) && OldestFirst(old(age), old(Spent(head.Length)), nodes)
      ensures old(flushFailed) ==> nodes == old(nodes) && size == if newSize > old(size) then newSize else old(size)
    {
      hide Valid, Coherent, Needed, OldestFirst, Spent;
      ScanStart(head.Length);
      NothingGone(age, Spent(head.Length));
      if !flushFailed || newSize > size { size := newSize; }
      if size < used && !flushFailed { CacheClean(0, head.Length); }
    }

    ghost predicate OpOk(op: Op) {
      match op
      case Write(buf, idx, off) => SliceOk(idx, off, |buf|)
      case Read(_, idx, off, len) => SliceOk(idx, off, len)
      case Prep(idx) => idx < head.Length
      case Flush(idx) => idx < head.Length
      case Configure(newSize) => 0 < newSize <= Limit()
      case _ => true
    }

    /** What an operation does to the cache. */
    twostate predicate Did(op: Op)
      requires Valid() && OpOk(op) && !old(flushFailed)
      reads this, head, nodes
    {
      && have == (if op.Complete? then old(have) + {op.idx} else old(have))
      && now == (if op.Tick? then op.now else old(now))
      && match op
         case Write(buf, idx, off) =>
           0 < |buf| < Big() && !flushFailed ==> DirtyNewest(OffsetOf(idx, off) + |buf|)
         case Read(want, idx, off, len) =>
           ReadFits(want, Big(), old(Now()), Now(), OffsetOf(idx, off), OffsetOf(idx, off) + len)
         case Clean(need, spare) =>
           && (used + need <= size || (size >= Limit() && (nodes == {} || flushFailed)))
           && Needed(old(nodes), old(used), old(size), nodes, used, need)
           && OldestFirst(old(age), old(Spent(spare)), nodes)
         case Prep(idx) =>
           && Total(lists[idx]) <= LenOf(idx)
           && var need := LenOf(idx) - Total(lists[idx]);
           && (need == 0 || used + need <= size || forall e :: e in nodes ==> PieceOf(e.off, pieceLength) == idx)
           && Needed(old(nodes), old(used), old(size), nodes, used, need)
         case Flush(idx) =>
           nodes == old(nodes) && (!flushFailed ==> forall e :: e in lists[idx] ==> !e.flush)
         case FlushAll =>
           nodes == old(nodes) && (!flushFailed ==> Dirty() == {} && disk == flat)
         case Configure(newSize) =>
           && Needed(old(nodes), old(used), newSize, nodes, used, 0)
           && (!flushFailed ==> used <= size && (newSize == size || size in {used, Limit()}))
         case _ => nodes == old(nodes) && disk == old(disk)
    }

    /** One operation. */
    method Do(op: Op) returns (outs: seq<seq<byte>>)
      requires Valid() && Coherent(nodes, disk, flat) && 0 < size && !flushFailed && OpOk(op)
      modifies this`disk, this`flushFailed, this`flushTried, this`size, this`failures, this`flat, this`have, this`now
      modifies this`age, this`oldest, this`newest, this`lists, this`nodes, this`used
      modifies head, nodes`next, nodes`prev, nodes`ageNext, nodes`agePrev, nodes`flush, nodes`buf
      ensures Valid() && 0 < size && |flat| == |old(flat)|
      ensures forall e :: e in nodes ==> e in old(nodes) || fresh(e)
      ensures old(failures) <= failures && (flushFailed <==> failures > old(failures))
      ensures !flushFailed ==> Coherent(nodes, disk, flat)
      ensures !flushFailed && op.Write? ==> OffsetOf(op.idx, op.off) + |op.buf| <= |flat|
      ensures !flushFailed && op.Write? ==> flat == Splice(old(flat), OffsetOf(op.idx, op.off), op.buf)
      ensures !flushFailed && !op.Write? ==> flat == old(flat)
      ensures op.Read? ==> OffsetOf(op.idx, op.off) + op.len <= |flat|
      ensures !flushFailed && op.Read? && op.want ==> outs == [flat[OffsetOf(op.idx, op.off)..OffsetOf(op.idx, op.off) + op.len]]
      ensures !(op.Read? && op.want) ==> outs == []
      ensures Did(op)
    {
      hide Valid, Coherent, SliceOk, OffsetOf, ReadFits, Needed, OldestFirst, Spent, DirtyNewest, Total, LenOf, PieceOf;
      SizeFacts();
      outs := [];
      match op {
        case Write(buf, idx, off) =>
          var ok := WriteSlice(buf, idx, off);
        case Read(want, idx, off, len) =>
          var data := ReadSlice(want, idx, off, len);
          if want { outs := [data]; }
        case Clean(need, spare) => CacheClean(need, spare);
        case Prep(idx) => var prefetch := CachePrep(idx);
        case Flush(idx) => var moved := FlushPiece(idx);
        case FlushAll => FlushCache();
        case Configure(newSize) => Configure(newSize);
        case Complete(idx) => have := have + {idx};
        case Tick(t) => now := t;
      }
    }

    /** Any run in which no disk write fails does to the flat array what its writes alone do, and its reads see it. */
    method Run(ops: seq<Op>) returns (outs: seq<seq<byte>>)
      requires Valid() && Coherent(nodes, disk, flat) && 0 < size && !flushFailed
      requires forall op :: op in ops ==> OpOk(op)
      modifies this`disk, this`flushFailed, this`flushTried, this`size, this`failures, this`flat, this`have, this`now
      modifies this`age, this`oldest, this`newest, this`lists, this`nodes, this`used
      modifies head, nodes`next, nodes`prev, nodes`ageNext, nodes`agePrev, nodes`flush, nodes`buf
      ensures Valid()
      ensures failures == old(failures) ==> Coherent(nodes, disk, flat) && (flat, outs) == Replay(ops, old(flat), pieceLength)
    {
      hide Valid, Coherent, OpOk;
      outs := [];
      assert ops[..0] == [];
      for i := 0 to |ops|
        invariant Valid() && Coherent(nodes, disk, flat) && 0 < size && !flushFailed && failures == old(failures)
        invariant forall e :: e in nodes ==> e in old(nodes) || fresh(e)
        invariant (flat, outs) == Replay(ops[..i], old(flat), pieceLength)
      {
        var more := Do(ops[i]);
        if flushFailed { return; }
        assert outs + [] == outs;
        outs := outs + more;
        assert ops[..i + 1][..i] == ops[..i] && ops[..i + 1][i] == ops[i];
      }
      assert ops[..|ops|] == ops;
    }
  }
}
