/** How many bytes are left to get: the pieces there are, those that have been checked and those that are wanted (btcontent.cpp). */
module Accounting {
  import opened Pieces
  import opened Sets
  import opened Bits
  import opened Bitfields

  datatype Torrent = Torrent(total: pos, pieceLength: pos) {
    function Count(): nat {
      NPieces(total, pieceLength)
    }

    /** GetPieceLength */
    function Length(idx: nat): nat {
      PieceLen(total, pieceLength, Count(), idx)
    }

    /** The lengths of the pieces in `s` below `k`, added up. */
    ghost function Bytes(s: set<nat>, k: nat): nat {
      if k == 0 then 0 else Bytes(s, k - 1) + if k - 1 in s then Length(k - 1) else 0
    }

    lemma {:induction false} BytesWithout(s: set<nat>, idx: nat, k: nat)
      requires idx in s
      ensures Bytes(s, k) == Bytes(s - {idx}, k) + if idx < k then Length(idx) else 0
    {
      if k > 0 {
        BytesWithout(s, idx, k - 1);
      }
    }

    lemma {:induction false} BytesAll(s: set<nat>, k: nat)
      requires forall i: nat :: i < k ==> i in s
      ensures Bytes(s, k) == SumLens(total, pieceLength, k)
    {
      if k > 0 {
        BytesAll(s, k - 1);
      }
    }

    /** A set of pieces and the other pieces make up the first `k`. */
    lemma {:induction false} BytesSplit(s: set<nat>, r: set<nat>, k: nat)
      requires forall i: nat :: i < k ==> (i in r <==> i !in s)
      ensures Bytes(s, k) + Bytes(r, k) == SumLens(total, pieceLength, k)
    {
      if k > 0 {
        BytesSplit(s, r, k - 1);
      }
    }

    lemma {:induction false} BytesNext(s: set<nat>, idx: nat, k: nat)
      requires idx < k
      ensures Bytes(s, idx + 1) == Bytes(s, idx) + (if idx in s then Length(idx) else 0) <= Bytes(s, k)
    {
      if idx + 1 < k {
        BytesNext(s, idx, k - 1);
      }
    }

    /** No piece is empty. */
    lemma {:induction false} BytesNone(s: set<nat>, k: nat)
      requires k <= Count()
      ensures Bytes(s, k) == 0 <==> Part(s, k) == {}
    {
      if k > 0 {
        BytesNone(s, k - 1);
        PieceEnd(total, pieceLength, k - 1);
        assert Part(s, k) == Part(s, k - 1) + if k - 1 in s then {k - 1} else {};
      }
    }

    /** The whole torrent. */
    lemma BytesTotal()
      ensures Bytes(Below(Count()), Count()) == total
    {
      BytesAll(Below(Count()), Count());
      PiecesTile(total, pieceLength, Count());
    }

    lemma {:induction false} BytesFull(s: set<nat>, k: nat)
      requires k < Count() || total % pieceLength == 0
      requires k <= Count()
      ensures Bytes(s, k) == pieceLength * |Part(s, k)|
    {
      if k > 0 {
        BytesFull(s, k - 1);
        PartStep(s, k - 1);
        FullLength(k - 1);
        Once(pieceLength, |Part(s, k - 1)|);
      } else {
        assert Part(s, 0) == {};
      }
    }

    lemma FullLength(idx: nat)
      requires idx < Count() && (idx + 1 < Count() || total % pieceLength == 0)
      ensures Length(idx) == pieceLength
    {
      NPiecesCases(total, pieceLength);
    }

    /** Every piece is full but the last one, if that is in the set. */
    lemma BytesShort(s: set<nat>)
      requires s <= Below(Count())
      ensures var n := Count();
        && n > 0 && pieceLength >= Length(n - 1)
        && Bytes(s, n) == pieceLength * |s| - if n - 1 in s then pieceLength - Length(n - 1) else 0
    {
      var n := Count();
      SomePiece();
      PieceEnd(total, pieceLength, n - 1);
      BytesFull(s, n - 1);
      PartStep(s, n - 1);
      assert Part(s, n) == s;
      hide *;
      Once(pieceLength, |Part(s, n - 1)|);
    }

    lemma SomePiece()
      ensures Count() > 0
    {
      NPiecesCases(total, pieceLength);
      DivRange(total, total / pieceLength, pieceLength);
    }
  }

  lemma Once(x: nat, y: nat)
    ensures x * (y + 1) == x * y + x
  {
  }

  ghost function Part(s: set<nat>, k: nat): set<nat> {
    set i | i in s && i < k
  }

  lemma PartStep(s: set<nat>, k: nat)
    ensures |Part(s, k + 1)| == |Part(s, k)| + if k in s then 1 else 0
  {
    assert Part(s, k + 1) == Part(s, k) + if k in s then {k} else {};
  }

  datatype Hash = Matches | Differs | Unreadable

  /** All slices of a piece have come, or there is time to check one more. */
  datatype Event = Filled(idx: nat, hash: Hash) | Check(hash: Hash)

  /** How many checks there are whose piece can be read. */
  function Checks(events: seq<Event>, k: nat): nat
    requires k <= |events|
  {
    if k == 0 then 0 else Checks(events, k - 1) + if events[k - 1].Check? && !events[k - 1].hash.Unreadable? then 1 else 0
  }

  /** What is there, what has been checked, where the check goes on, how much has been got and what is to be flushed. */
  datatype Sheet = Sheet(have: set<nat>, checked: set<nat>, next: nat, downloaded: nat, flushq: seq<nat>)

  /** The first piece from `i` on that has not been checked, or `n`. */
  ghost function FirstUnchecked(checked: set<nat>, i: nat, n: nat): (k: nat)
    requires i <= n
    ensures i <= k <= n && (k < n ==> k !in checked) && forall j :: i <= j < k ==> j in checked
    decreases n - i
  {
    if i == n || i !in checked then i else FirstUnchecked(checked, i + 1, n)
  }

  /** What an event makes of that: a piece that has been filled is there if its hash matches; the check goes past what has
      been checked, and checks one piece more unless it cannot be read. */
  ghost function After(t: Torrent, caching: bool, s: Sheet, e: Event): (r: Sheet)
    ensures s.next <= t.Count() ==> r.next <= t.Count()
  {
    match e
    case Filled(idx, hash) =>
      if idx in s.checked && idx !in s.have && hash.Matches? then
        var flushq := if caching then s.flushq + [idx] else s.flushq;
        s.(have := s.have + {idx}, downloaded := s.downloaded + t.Length(idx), flushq := flushq)
      else s
    case Check(hash) =>
      var i := if s.next < t.Count() then FirstUnchecked(s.checked, s.next, t.Count()) else s.next;
      if i >= t.Count() || hash.Unreadable? then s.(next := i)
      else s.(next := i + 1, checked := s.checked + {i}, have := if hash.Matches? then s.have + {i} else s.have)
  }

  ghost function AfterAll(t: Torrent, caching: bool, s: Sheet, events: seq<Event>): Sheet {
    if events == [] then s
    else After(t, caching, AfterAll(t, caching, s, events[..|events| - 1]), events[|events| - 1])
  }

  class Ledger {
    const t: Torrent
    const have: Bitfield
    const checked: Bitfield
    const filter: Bitfield
    var left: nat
    var next: nat
    var downloaded: nat
    /** The pieces that are to be flushed, and whether there is a cache. */
    var flushq: seq<nat>
    const caching: bool

    /** The three sets belong to the torrent and share nothing. */
    ghost predicate Apart()
      reads this, have, checked, filter, have.b, checked.b, filter.b
    {
      && have.Valid() && checked.Valid() && filter.Valid()
      && have.nbits == checked.nbits == filter.nbits == t.Count()
      && have != checked && have != filter && checked != filter
      && (have.b != null ==> have.b != checked.b && have.b != filter.b)
      && (checked.b != null ==> checked.b != filter.b)
    }

    ghost function Missing(): set<nat>
      requires have.Valid()
      reads have, have.b
    {
      Below(have.nbits) - have.Elems()
    }

    ghost function Now(): Sheet
      requires have.Valid() && checked.Valid()
      reads this, have, checked, have.b, checked.b
    {
      Sheet(have.Elems(), checked.Elems(), next, downloaded, flushq)
    }

    /** What is left is the size of what is missing; what is there has been checked, as has all before the next to check. */
    ghost predicate Valid()
      reads this, have, checked, filter, have.b, checked.b, filter.b
    {
      && Apart() && left == t.Bytes(Missing(), t.Count()) && have.Elems() <= checked.Elems()
      && next <= t.Count() && Below(next) <= checked.Elems()
    }

    constructor (t: Torrent, caching: bool)
      ensures Valid() && have.Elems() == checked.Elems() == filter.Elems() == {} && next == 0 && downloaded == 0 && flushq == []
      ensures this.t == t && this.caching == caching && left == t.total
      ensures fresh(have) && fresh(checked) && fresh(filter) && fresh(have.b) && fresh(checked.b) && fresh(filter.b)
    {
      hide Torrent.Bytes, Members, Clean, Below;
      t.SomePiece();
      this.t, this.caching, left, next, downloaded, flushq := t, caching, t.total, 0, 0, [];
      have := new Bitfield(t.Count());
      checked := new Bitfield(t.Count());
      filter := new Bitfield(t.Count());
      new;
      t.BytesTotal();
      assert Missing() == Below(t.Count()) && Below(0) == {};
    }

    /** Marks a missing piece as there. */
    method Gain(idx: nat)
      requires Apart() && left == t.Bytes(Missing(), t.Count()) && idx in Missing()
      modifies `left, have, have.b
      ensures Apart() && left == t.Bytes(Missing(), t.Count()) && have.Elems() == old(have.Elems()) + {idx}
      ensures left == old(left) - t.Length(idx)
      ensures have.b == null || have.b == old(have.b)
    {
      t.BytesWithout(Missing(), idx, t.Count());
      ghost var was := Missing();
      have.Set(idx);
      assert Missing() == was - {idx};
      left := left - t.Length(idx);
    }

    /** Nothing is left just when every piece is there. */
    lemma LeftNothing()
      requires Valid()
      ensures left == 0 <==> have.Elems() == Below(t.Count())
    {
      have.EmptyIff();
      t.BytesNone(Missing(), t.Count());
      assert Part(Missing(), t.Count()) == Missing();
    }

    /** CheckExist: checks the pieces whose files exist. */
    method CheckExist(present: Bitfield, hashes: seq<Hash>) returns (r: int)
      requires Valid() && have.Elems() == {} && present.Valid() && present !in {have, checked, filter}
      requires present.nbits == t.Count() == |hashes| && (present.b != null ==> present.b != have.b && present.b != checked.b)
      modifies `left, `next, have, have.b, checked, checked.b
      ensures r == 0 || r == -1
      ensures r == -1 <==> exists i :: 0 <= i < |hashes| && i in old(present.Elems()) && hashes[i].Unreadable?
      ensures r == 0 ==>
        && Valid() && next == t.Count()
        && forall i: nat :: i in have.Elems() <==> i < t.Count() && i in old(present.Elems()) && hashes[i].Matches?
    {
      hide Torrent.Bytes, Members, Clean, Below, Bitfield.Shaped, Bitfield.Elems;
      ghost var p := present.Elems();
      for idx := 0 to t.Count()
        invariant Apart() && left == t.Bytes(Missing(), t.Count()) && present.Valid() && present.Elems() == p
        invariant have.b == null || have.b == old(have.b)
        invariant forall i: nat :: i in have.Elems() <==> i < idx && i in p && hashes[i].Matches?
        invariant forall i: nat :: i < idx && i in p ==> !hashes[i].Unreadable?
      {
        var there := present.IsSet(idx);
        if there {
          if hashes[idx].Unreadable? {
            return -1;
          }
          if hashes[idx].Matches? {
            Gain(idx);
          }
        }
      }
      next := t.Count();
      checked.SetAll();
      r := 0;
    }

    /** Another set of pieces, which shares nothing with these. */
    ghost predicate Beside(bf: Bitfield)
      reads this, have, checked, filter, bf
    {
      && bf.nbits == t.Count() && bf !in {have, checked, filter}
      && (bf.b != null ==> bf.b != have.b && bf.b != checked.b && bf.b != filter.b)
    }

    /** A torrent whose files exist: pieces that the saved set has are to be checked, unless it is to be trusted. */
    method Resume(refer: Bitfield, present: Bitfield, force: bool)
      requires Valid() && have.Elems() == {} && next == 0 && refer.Valid() && present.Valid()
      requires refer != present && refer.Alongside(present) && Beside(refer) && Beside(present)
      modifies `left, `next, have, have.b, checked, checked.b, refer, refer.b
      ensures Valid()
      ensures var r := old(refer.Elems()) * old(present.Elems());
        if force then have.Elems() == r && next == t.Count()
        else have.Elems() == {} && next == 0 && checked.Elems() == Below(t.Count()) - r
    {
      hide Torrent.Bytes, Members, Clean, Below, Bitfield.Shaped, Bitfield.Elems;
      t.BytesTotal();
      assert Missing() == Below(t.Count());
      refer.And(present);
      MarkAbsent(refer);
      if force {
        Trust(refer);
      }
    }

    /** What is not in the set may be got at once. */
    method MarkAbsent(refer: Bitfield)
      requires Valid() && have.Elems() == {} && next == 0 && refer.Valid() && Beside(refer)
      modifies checked, checked.b
      ensures Valid() && refer.Valid() && checked.Elems() == Below(t.Count()) - refer.Elems() && refer.Elems() == old(refer.Elems())
      ensures checked.b == null || checked.b == old(checked.b) || fresh(checked.b)
      ensures Beside(refer)
    {
      hide Torrent.Bytes, Members, Clean, Below, Bitfield.Shaped, Bitfield.Elems;
      checked.Assign(refer);
      checked.Invert();
    }

    /** Takes the set for what is there, without a check. */
    method Trust(refer: Bitfield)
      requires Valid() && left == t.total && refer.Valid() && Beside(refer)
      modifies `left, `next, have, have.b, checked, checked.b
      ensures Valid() && next == t.Count() && have.Elems() == old(refer.Elems())
    {
      hide Torrent.Bytes, Members, Clean, Below, Bitfield.Shaped, Bitfield.Elems;
      have.Assign(refer);
      CountLeft();
      next := t.Count();
      have.EmptyIff();
      checked.SetAll();
    }

    /** Takes what is there off what is left. */
    method CountLeft()
      requires Apart() && left == t.total
      modifies `left
      ensures left == t.Bytes(Missing(), t.Count())
    {
      hide Torrent.Bytes, Members, Clean, Below, Bitfield.Shaped, Bitfield.Elems;
      ghost var s, n := have.Elems(), t.Count();
      have.EmptyIff();
      t.BytesSplit(s, Missing(), n);
      PiecesTile(t.total, t.pieceLength, n);
      if have.IsFull() {
        t.BytesNone(Missing(), n);
        assert Part(Missing(), n) == {};
        left := 0;
      } else {
        var idx := 0;
        NoBytes(s);
        while idx < t.Count()
          invariant idx <= n && left == t.total - t.Bytes(s, idx)
          modifies `left
        {
          t.BytesNext(s, idx, n);
          var there := have.IsSet(idx);
          if there {
            left := left - t.Length(idx);
          }
          idx := idx + 1;
        }
      }
    }

    lemma NoBytes(s: set<nat>)
      ensures t.Bytes(s, 0) == 0
    {
    }

    /** APieceComplete, for a piece that has been requested and so has been checked; what its hash is depends on the disk. */
    method APieceComplete(idx: nat, hash: Hash) returns (r: int)
      requires Valid() && idx in checked.Elems()
      modifies `left, `downloaded, `flushq, have, have.b
      ensures Valid() && (have.b == null || have.b == old(have.b))
      ensures r == if idx in old(have.Elems()) || hash.Matches? then 1 else if hash.Unreadable? then -1 else 0
      ensures have.Elems() == if r == 1 then old(have.Elems()) + {idx} else old(have.Elems())
      ensures downloaded - old(downloaded) == old(left) - left
      ensures Now() == After(t, caching, old(Now()), Filled(idx, hash))
    {
      hide Torrent.Bytes, Members, Clean, Below, Bitfield.Shaped, Bitfield.Elems;
      var there := have.IsSet(idx);
      if there {
        return 1;
      }
      if hash.Unreadable? {
        return -1;
      }
      if hash.Differs? {
        return 0;
      }
      Gain(idx);
      downloaded := downloaded + t.Length(idx);
      if caching {
        flushq := flushq + [idx];
      }
      r := 1;
    }

    /** The first piece from `next` on that has not been checked. */
    method SkipChecked() returns (idx: nat)
      requires Valid()
      modifies checked, checked.b
      ensures Valid() && checked.Elems() == old(checked.Elems()) && (checked.b == null || checked.b == old(checked.b))
      ensures next <= idx <= t.Count() && Below(idx) <= checked.Elems() && idx !in checked.Elems()
      ensures idx == FirstUnchecked(checked.Elems(), next, t.Count())
    {
      hide Torrent.Bytes, Members, Clean, Below, Bitfield.Shaped, Bitfield.Elems;
      checked.EmptyIff();
      idx := next;
      var done := checked.IsSet(idx);
      while idx < t.Count() && done
        invariant next <= idx <= t.Count() && Valid() && done == (idx in checked.Elems())
        invariant Below(idx) <= checked.Elems() == old(checked.Elems())
        invariant checked.b == null || checked.b == old(checked.b)
      {
        checked.Set(idx);
        idx := idx + 1;
        done := checked.IsSet(idx);
      }
    }

    /** Notes that a piece has been checked. */
    method Mark(idx: nat)
      requires Valid() && idx < t.Count() && Below(idx) <= checked.Elems()
      modifies `next, checked, checked.b
      ensures Valid() && next == idx + 1 && checked.Elems() == old(checked.Elems()) + {idx}
      ensures checked.b == null || checked.b == old(checked.b)
    {
      hide Torrent.Bytes, Members, Clean, Below, Bitfield.Shaped, Bitfield.Elems;
      checked.Set(idx);
      next := idx + 1;
    }

    /** Checks a piece that has not been checked. */
    method CheckPiece(idx: nat, hash: Hash)
      requires Valid() && idx < t.Count() && Below(idx) <= checked.Elems() && idx !in checked.Elems()
      modifies `left, `next, have, have.b, checked, checked.b
      ensures Valid() && (have.b == null || have.b == old(have.b)) && (checked.b == null || checked.b == old(checked.b))
      ensures next == idx + 1 && checked.Elems() == old(checked.Elems()) + {idx}
      ensures have.Elems() == if hash.Matches? then old(have.Elems()) + {idx} else old(have.Elems())
    {
      hide Torrent.Bytes, Members, Clean, Below, Bitfield.Shaped, Bitfield.Elems;
      have.EmptyIff();
      Mark(idx);
      if hash.Matches? {
        Gain(idx);
      }
    }

    /** CheckNextPiece: goes past what has been checked, and checks the next piece. */
    method CheckNextPiece(hash: Hash) returns (r: int)
      requires Valid()
      modifies `left, `next, have, have.b, checked, checked.b
      ensures Valid() && (have.b == null || have.b == old(have.b)) && (checked.b == null || checked.b == old(checked.b))
      ensures r == if hash.Unreadable? && FirstUnchecked(old(checked.Elems()), old(next), t.Count()) < t.Count() then -1 else 0
      ensures Now() == After(t, caching, old(Now()), Check(hash))
    {
      hide Torrent.Bytes, Members, Clean, Below, Bitfield.Shaped, Bitfield.Elems;
      if next >= t.Count() {
        return 0;
      }
      var idx := next;
      var done := checked.IsSet(idx);
      if done {
        idx := SkipChecked();
        next := idx;
      }
      if idx < t.Count() {
        if hash.Unreadable? {
          return -1;
        }
        CheckPiece(idx, hash);
      }
      r := 0;
    }

    /** The missing pieces that are wanted. */
    method Wanted() returns (tmp: Bitfield)
      requires Valid()
      ensures fresh(tmp) && tmp.Valid() && tmp.nbits == t.Count() && tmp.Elems() == Missing() - filter.Elems()
    {
      hide Torrent.Bytes, Members, Clean, Below, Bitfield.Shaped, Bitfield.Elems;
      tmp := new Bitfield.Copy(have);
      tmp.Invert();
      tmp.Except(filter);
    }

    /** GetNeedBytes: the size of what is missing and wanted. */
    method GetNeedBytes() returns (need: nat)
      requires Valid()
      ensures need == t.Bytes(Missing() - filter.Elems(), t.Count())
    {
      hide Torrent.Bytes, Members, Clean, Below, Bitfield.Shaped, Bitfield.Elems;
      filter.EmptyIff();
      if filter.nset == 0 {
        assert Missing() - filter.Elems() == Missing();
        return left;
      }
      var tmp := Wanted();
      tmp.EmptyIff();
      tmp.Counted();
      t.BytesShort(tmp.Elems());
      var last := tmp.IsSet(t.Count() - 1);
      need := t.pieceLength * tmp.nset - if last then t.pieceLength - t.Length(t.Count() - 1) else 0;
    }

    /** A piece has been filled, or the next one is checked. */
    method Take(e: Event)
      requires Valid()
      modifies `left, `next, `downloaded, `flushq, have, have.b, checked, checked.b
      ensures Valid() && Now() == After(t, caching, old(Now()), e)
      ensures (have.b == null || have.b == old(have.b)) && (checked.b == null || checked.b == old(checked.b))
    {
      hide Torrent.Bytes, Members, Clean, Below, Bitfield.Shaped, Bitfield.Elems;
      match e {
        case Filled(idx, hash) =>
          var requested := checked.IsSet(idx);
          if requested {
            var _ := APieceComplete(idx, hash);
          }
        case Check(hash) =>
          var _ := CheckNextPiece(hash);
      }
    }

    /** Whatever is completed and checked, in any order: nothing is lost or counted twice, and the check gets to its end. */
    method Run(events: seq<Event>)
      requires Valid()
      modifies `left, `next, `downloaded, `flushq, have, have.b, checked, checked.b
      ensures Valid() && old(have.Elems()) <= have.Elems()
      ensures next == t.Count() || next >= old(next) + Checks(events, |events|)
      ensures Now() == AfterAll(t, caching, old(Now()), events)
    {
      hide Torrent.Bytes, Members, Clean, Below, Bitfield.Shaped, Bitfield.Elems, After;
      for k := 0 to |events|
        invariant Valid() && old(have.Elems()) <= have.Elems()
        invariant (have.b == null || have.b == old(have.b)) && (checked.b == null || checked.b == old(checked.b))
        invariant next == t.Count() || next >= old(next) + Checks(events, k)
        invariant Now() == AfterAll(t, caching, old(Now()), events[..k])
      {
        assert events[..k + 1][..k] == events[..k];
        GoesOn(t, caching, Now(), events[k]);
        Take(events[k]);
      }
      assert events[..|events|] == events;
    }
  }

  /** Nothing that is there is lost, and each check that can read its piece goes on, until there is no more to check. */
  lemma GoesOn(t: Torrent, caching: bool, s: Sheet, e: Event)
    requires s.next <= t.Count()
    ensures var r := After(t, caching, s, e);
      && s.have <= r.have && s.next <= r.next
      && (e.Check? && !e.hash.Unreadable? ==> r.next == t.Count() || s.next < r.next)
  {
  }
}
