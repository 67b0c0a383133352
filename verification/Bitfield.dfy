/** The packed set of piece numbers of bitfield.cpp: a full set has no buffer, and the count is cached. */
module Bitfields {
  import opened Pieces
  import opened Sets
  import opened Bits

  class Bitfield {
    const nbits: pos
    var b: array?<bv8>
    var nset: nat

    function NBytes(): (n: nat)
      ensures n > 0
    {
      BytesFor(nbits)
    }

    predicate IsFull()
      reads this
    {
      nset >= nbits
    }

    /** There is a buffer of the right size unless the set is full, by the count. */
    ghost predicate Shaped()
      reads this, b
    {
      && nset <= nbits && (b == null <==> IsFull())
      && (b != null ==> b.Length == NBytes() && Clean(b[..], nbits))
    }

    ghost predicate Valid()
      reads this, b
    {
      Shaped() && (b != null ==> nset == |Members(b[..], nbits)|)
    }

    /** The set of piece numbers that this stands for. */
    ghost function Elems(): (r: set<nat>)
      requires Shaped()
      reads this, b
      ensures r <= Below(nbits)
    {
      if b == null then Below(nbits) else Members(b[..], nbits)
    }

    lemma Counted()
      requires Valid()
      ensures nset == |Elems()| <= nbits
    {
    }

    constructor (nbits: pos)
      ensures Valid() && Elems() == {} && this.nbits == nbits && b != null && fresh(b)
    {
      this.nbits := nbits;
      var buf := new bv8[BytesFor(nbits)](i => 0);
      nset, b := 0, buf;
      new;
      Zeros(b[..], nbits);
    }

    /** All bits up to the last one. */
    method FillAll(buf: array<bv8>)
      requires buf.Length == NBytes()
      modifies buf
      ensures Clean(buf[..], nbits) && Members(buf[..], nbits) == Below(nbits)
    {
      forall i | 0 <= i < buf.Length - 1 {
        buf[i] := 0xff;
      }
      if nbits % 8 != 0 {
        buf[buf.Length - 1] := Leading(nbits % 8);
      } else {
        buf[buf.Length - 1] := 0xff;
      }
      Filled(buf[..], nbits);
    }

    /** The count of ones of every byte. */
    static method CountTable() returns (bits: array<nat>)
      ensures fresh(bits) && bits.Length == 256 && forall v :: 0 <= v < 256 ==> bits[v] == Ones(v)
    {
      hide Ones, Pow2;
      bits := new nat[256](i => 0);
      OnesNone();
      var x := 0;
      for i := 0 to 8
        invariant x + 1 == Pow2(i) <= 256 && forall v :: 0 <= v <= x ==> bits[v] == Ones(v)
      {
        Doubles(i);
        var exp := x + 1;
        for j := 0 to exp
          invariant x + 1 == exp + j && forall v :: 0 <= v <= x ==> bits[v] == Ones(v)
        {
          OnesHigh(i, j);
          x := x + 1;
          bits[x] := bits[j] + 1;
        }
      }
      Doubles(7);
    }

    /** Counts what is set, and gives up the buffer if that is everything. */
    method Recalc()
      requires b != null && b.Length == NBytes() && Clean(b[..], nbits)
      modifies this
      ensures Valid() && Elems() == old(Members(b[..], nbits))
      ensures b == null || b == old(b)
    {
      var bits := CountTable();
      ghost var s := b[..];
      nset := 0;
      var i := 0;
      while i < NBytes()
        invariant i <= NBytes() && b == old(b) && nset == |Members(s, 8 * i)|
        invariant forall v :: 0 <= v < 256 ==> bits[v] == Ones(v)
      {
        ValueIs(b[i]);
        OnesValue(b[i], 8);
        MembersByte(s, i, 8);
        nset := nset + bits[b[i] as nat];
        i := i + 1;
      }
      CleanMembers(s, nbits);
      if IsFull() {
        Fills(Members(s, nbits), Below(nbits));
        b := null;
      }
    }

    /** A copy of another set. */
    constructor Copy(bf: Bitfield)
      requires bf.Valid()
      ensures Valid() && nbits == bf.nbits && Elems() == bf.Elems() && (b != null ==> fresh(b))
    {
      nbits := bf.nbits;
      nset := bf.nset;
      if bf.IsFull() {
        b := null;
      } else {
        var theirs := bf.b;
        b := new bv8[BytesFor(bf.nbits)](i requires 0 <= i < theirs.Length reads theirs => theirs[i]);
      }
      new;
      assert b != null ==> b[..] == bf.b[..];
    }

    /** Two sets of one torrent, which share no buffer unless they are the same. */
    ghost predicate Alongside(bf: Bitfield)
      reads this, bf
    {
      nbits == bf.nbits && (bf == this || b == null || bf.b != b)
    }

    method SetAll()
      modifies this
      ensures Valid() && b == null && Elems() == Below(nbits)
    {
      b := null;
      nset := nbits;
    }

    method Clear()
      requires Shaped()
      modifies this, b
      ensures Valid() && Elems() == {} && b != null && (b == old(b) || fresh(b))
    {
      if IsFull() {
        b := new bv8[NBytes()];
      }
      forall i | 0 <= i < b.Length {
        b[i] := 0;
      }
      nset := 0;
      Zeros(b[..], nbits);
    }

    method Assign(bf: Bitfield)
      requires Shaped() && bf.Valid() && Alongside(bf)
      modifies this, b
      ensures Valid() && Elems() == old(bf.Elems()) && (b == null || b == old(b) || fresh(b))
    {
      nset := bf.nset;
      if bf.IsFull() {
        b := null;
      } else {
        if b == null {
          b := new bv8[NBytes()];
        }
        ghost var s := bf.b[..];
        forall i | 0 <= i < b.Length {
          b[i] := bf.b[i];
        }
        assert b[..] == s;
      }
    }

    method IsSet(idx: nat) returns (r: bool)
      requires Valid()
      ensures r <==> idx in Elems()
    {
      if idx >= nbits {
        return false;
      }
      r := IsFull() || BitOf(idx);
    }

    /** _isset */
    predicate BitOf(idx: nat): (r: bool)
      requires b != null && b.Length == NBytes() && idx < nbits
      reads this, b
      ensures r <==> BitAt(b[..], idx)
      ensures r <==> idx in Members(b[..], nbits)
    {
      Bit(b[idx / 8], idx % 8)
    }

    /** Writes one bit. */
    method PutBit(idx: nat, on: bool)
      requires b != null && b.Length == NBytes() && Clean(b[..], nbits) && idx < nbits
      modifies b
      ensures Clean(b[..], nbits)
      ensures forall k: nat :: k < nbits ==> (BitAt(b[..], k) <==> if k == idx then on else BitAt(old(b[..]), k))
      ensures Members(b[..], nbits) == if on then old(Members(b[..], nbits)) + {idx} else old(Members(b[..], nbits)) - {idx}
    {
      hide Bit, Mask, BitAt, Clean, Members;
      ghost var s := b[..];
      if on {
        b[idx / 8] := b[idx / 8] | Mask(idx % 8);
      } else {
        b[idx / 8] := b[idx / 8] & !Mask(idx % 8);
      }
      BitPut(s, b[..], nbits, idx, on);
    }

    method Set(idx: nat)
      requires Valid()
      modifies this, b
      ensures Valid() && Elems() == old(Elems()) + (if idx < nbits then {idx} else {})
      ensures b == null || b == old(b)
    {
      hide Bit, BitAt, Members, Clean, BytesFor;
      if idx >= nbits {
        return;
      }
      BytesHold(nbits);
      if !IsFull() && !BitOf(idx) {
        PutBit(idx, true);
        nset := nset + 1;
        if IsFull() {
          Fills(Members(b[..], nbits), Below(nbits));
          b := null;
        }
      }
    }

    /** Takes a number out, by whatever count there is. */
    method UnSet(idx: nat)
      requires Shaped() && (b != null && idx < nbits && BitOf(idx) ==> nset > 0)
      modifies this, b
      ensures Shaped() && Elems() == old(Elems()) - {idx} && (b == null || b == old(b) || fresh(b))
      ensures old(b) != null ==> b == old(b) && nset == if idx in old(Elems()) then old(nset) - 1 else old(nset)
      ensures old(Valid()) ==> Valid()
    {
      hide Bit, Members, Clean, Below, Mask;
      if idx >= nbits {
        return;
      }
      if IsFull() {
        b := new bv8[NBytes()];
        FillAll(b);
        PutBit(idx, false);
        nset := nbits - 1;
      } else if BitOf(idx) {
        PutBit(idx, false);
        nset := nset - 1;
      }
    }

    /** Combines the buffers byte by byte, and counts again. */
    method CombineBytes(op: Op, other: array<bv8>)
      requires b != null && b.Length == other.Length == NBytes() && Clean(b[..], nbits) && Clean(other[..], nbits)
      requires !op.NotOp?
      modifies this, b
      ensures Valid() && (b == null || b == old(b))
      ensures Elems() ==
        CombineSets(op, old(Members(b[..], nbits)), old(Members(other[..], nbits)), Below(nbits))
    {
      hide Members, Clean, CombineSets, Combine;
      ghost var s, t := b[..], other[..];
      var i := 0;
      while i < NBytes()
        invariant i <= NBytes() && b == old(b)
        invariant forall j :: 0 <= j < i ==> b[j] == Combine(op, s[j], t[j])
        invariant forall j :: i <= j < b.Length ==> b[j] == s[j] && other[j] == t[j]
        modifies b
      {
        b[i] := Combine(op, b[i], other[i]);
        i := i + 1;
      }
      MembersCombine(op, s, t, b[..], nbits);
      Recalc();
    }

    method Or(bf: Bitfield)
      requires Valid() && bf.Valid() && Alongside(bf)
      modifies this, b
      ensures Valid() && Elems() == old(Elems()) + old(bf.Elems()) && (b == null || b == old(b))
    {
      hide Members, Clean;
      EmptyIff();
      bf.EmptyIff();
      if bf.nset != 0 && !IsFull() {
        if bf.IsFull() {
          SetAll();
        } else if nset == 0 {
          CopyBytes(bf.b);
          nset := bf.nset;
        } else {
          CombineBytes(OrOp, bf.b);
        }
      }
    }

    method Except(bf: Bitfield)
      requires Valid() && bf.Valid() && Alongside(bf)
      modifies this, b
      ensures Valid() && Elems() == old(Elems()) - old(bf.Elems()) && (b == null || b == old(b) || fresh(b))
    {
      hide Members, Clean;
      EmptyIff();
      bf.EmptyIff();
      if bf.nset != 0 && nset != 0 {
        if bf.IsFull() {
          Clear();
        } else {
          var other := bf.b;
          if IsFull() {
            b := new bv8[NBytes()];
            FillAll(b);
          }
          CombineBytes(ExceptOp, other);
        }
      }
    }

    method And(bf: Bitfield)
      requires Valid() && bf.Valid() && Alongside(bf)
      modifies this, b
      ensures Valid() && Elems() == old(Elems()) * old(bf.Elems()) && (b == null || b == old(b) || fresh(b))
    {
      hide Members, Clean;
      EmptyIff();
      bf.EmptyIff();
      if !bf.IsFull() && nset != 0 {
        if bf.nset == 0 {
          Clear();
        } else if IsFull() {
          b := new bv8[NBytes()];
          CopyBytes(bf.b);
          nset := bf.nset;
        } else {
          CombineBytes(AndOp, bf.b);
        }
      }
    }

    /** memcpy */
    method CopyBytes(other: array<bv8>)
      requires b != null && b.Length == other.Length
      modifies b
      ensures b[..] == old(other[..])
    {
      ghost var s := other[..];
      forall i | 0 <= i < b.Length {
        b[i] := other[i];
      }
      assert b[..] == s;
    }

    lemma EmptyIff()
      requires Valid()
      ensures nset == 0 <==> Elems() == {}
      ensures IsFull() <==> Elems() == Below(nbits)
      ensures Elems() <= Below(nbits)
    {
    }

    /** _set: puts a number in and leaves the count alone. */
    method SetUncounted(idx: nat)
      requires Shaped() && b != null
      modifies b
      ensures Shaped() && b == old(b) && Elems() == old(Elems()) + if idx < nbits then {idx} else {}
    {
      hide Bit, Members;
      if idx < nbits && !IsFull() && !BitOf(idx) {
        PutBit(idx, true);
      }
    }

    /** The bits of the last, incomplete byte are turned over one by one, while the count is off. */
    method InvertTail(ghost m: set<nat>)
      requires Shaped() && b != null && nbits % 8 != 0 && nset == |m| > 0 && m <= Below(nbits)
      requires forall i: nat :: i < nbits ==> (i in Elems() <==> (i in m <==> i >= 8 * (NBytes() - 1)))
      modifies this, b
      ensures Shaped() && b == old(b) && Elems() == Below(nbits) - m
    {
      hide Bit, Members;
      var i := 8 * (NBytes() - 1);
      ghost var base := i;
      while i < nbits
        invariant base <= i <= nbits && Shaped() && b == old(b) && b != null
        invariant nset == |m| - |Between(m, base, i)|
        invariant forall k: nat :: k < nbits ==> (k in Elems() <==> (k in m <==> k >= i))
      {
        BetweenStep(m, base, i);
        if BitOf(i) {
          UnSet(i);
        } else {
          SetUncounted(i);
        }
        i := i + 1;
      }
    }

    /** All bytes but the last one are turned over. */
    method InvertBytes()
      requires b != null && b.Length == NBytes()
      modifies b
      ensures forall j :: 0 <= j < b.Length ==> b[j] == if j < NBytes() - 1 then !old(b[j]) else old(b[j])
    {
      var i := 0;
      while i < NBytes() - 1
        invariant i <= NBytes() - 1
        invariant forall j :: 0 <= j < i ==> b[j] == !old(b[j])
        invariant forall j :: i <= j < b.Length ==> b[j] == old(b[j])
      {
        b[i] := !b[i];
        i := i + 1;
      }
    }

    method Invert()
      requires Valid()
      modifies this, b
      ensures Valid() && Elems() == Below(nbits) - old(Elems()) && (b == null || b == old(b) || fresh(b))
    {
      hide Bit, BitAt, Members, Clean;
      EmptyIff();
      if nset == 0 {
        SetAll();
      } else if IsFull() {
        Clear();
      } else {
        InvertPartial();
      }
    }

    /** A set that is neither empty nor full. */
    method InvertPartial()
      requires Valid() && b != null && nset > 0
      modifies this, b
      ensures Valid() && Elems() == Below(nbits) - old(Elems()) && b == old(b)
    {
      hide Bit, BitAt, Members, Clean, Combine;
      Counted();
      ghost var s := b[..];
      var saved := nset;
      InvertBytes();
      if nbits % 8 != 0 {
        HalfInverted(s, b[..], nbits);
        InvertTail(old(Elems()));
      } else {
        b[NBytes() - 1] := !b[NBytes() - 1];
        Inverted(s, b[..], nbits);
      }
      nset := nbits - saved;
    }

    /** A random member of a set that is not empty. */
    method Random() returns (idx: nat)
      requires Valid() && nset > 0
      ensures idx in Elems()
    {
      hide Bit, BitAt, Clean, Members, Below, BytesFor;
      if IsFull() {
        idx :| 0 <= idx < nbits;
        EmptyIff();
      } else {
        BytesHold(nbits);
        MembersMonotone(b[..], 0, 0);
        idx := Scan();
      }
    }

    /** Goes to a random place among the members. */
    method Scan() returns (idx: nat)
      requires Valid() && b != null && nset > 0 && nbits <= 8 * NBytes() && |Members(b[..], 0)| == 0
      ensures idx in Elems()
    {
      hide Bit, BitAt, Clean, Members, Below, BytesFor;
      ghost var s := b[..];
      var i :| 1 <= i <= nset;
      ghost var first := i;
      idx := 0;
      while idx < nbits && i > 0
        invariant idx <= nbits && 0 <= i == first - |Members(s, idx)|
        invariant i == 0 ==> idx > 0 && idx - 1 in Elems()
      {
        MembersStep(s, idx);
        if BitOf(idx) {
          i := i - 1;
        }
        idx := idx + 1;
      }
      idx := idx - 1;
    }

    /** Takes over bytes from elsewhere, without what lies past the last bit. */
    method SetReferBuffer(buf: seq<bv8>)
      requires |buf| == NBytes() && (b != null ==> b.Length == NBytes())
      modifies this, b
      ensures Valid() && Elems() == Members(buf, nbits) && (b == null || b == old(b) || fresh(b))
    {
      hide Bit, Leading;
      if b == null {
        b := new bv8[NBytes()];
      }
      forall i | 0 <= i < b.Length {
        b[i] := buf[i];
      }
      if nbits % 8 != 0 {
        b[NBytes() - 1] := b[NBytes() - 1] & Leading(nbits % 8);
      }
      Trimmed(buf, b[..], nbits);
      Recalc();
    }

    method WriteToBuffer(buf: array<bv8>)
      requires Valid() && buf.Length == NBytes() && buf != b
      modifies buf
      ensures Clean(buf[..], nbits) && Members(buf[..], nbits) == Elems()
    {
      if IsFull() {
        FillAll(buf);
      } else {
        ghost var s := b[..];
        forall i | 0 <= i < buf.Length {
          buf[i] := b[i];
        }
        assert buf[..] == s == b[..];
      }
    }

    /** What one side writes the other side reads. */
    method Transmit(to: Bitfield)
      requires Valid() && to.Valid() && Alongside(to) && to != this
      modifies to, to.b
      ensures Valid() && to.Valid() && to.Elems() == Elems() == old(Elems())
    {
      var buf := new bv8[NBytes()];
      WriteToBuffer(buf);
      to.SetReferBuffer(buf[..]);
    }
  }

  /** What is in `m` from `lo` to `hi`. */
  ghost function Between(m: set<nat>, lo: nat, hi: nat): set<nat> {
    set k | k in m && lo <= k < hi
  }

  lemma BetweenStep(m: set<nat>, lo: nat, hi: nat)
    requires lo <= hi
    ensures |Between(m, lo, hi + 1)| == |Between(m, lo, hi)| + if hi in m then 1 else 0
    ensures |Between(m, lo, hi + 1)| <= |m|
  {
    assert Between(m, lo, hi + 1) == Between(m, lo, hi) + if hi in m then {hi} else {};
    Subset(Between(m, lo, hi + 1), m);
  }

  /** All bytes but the last are turned over. */
  lemma HalfInverted(s: seq<bv8>, t: seq<bv8>, n: nat)
    requires |s| == |t| == BytesFor(n) && n > 0 && Clean(s, n)
    requires forall j :: 0 <= j < |s| - 1 ==> t[j] == !s[j]
    requires t[|s| - 1] == s[|s| - 1]
    ensures Clean(t, n)
    ensures forall i: nat :: i < n ==> (i in Members(t, n) <==> (i in Members(s, n) <==> i >= 8 * (|s| - 1)))
  {
    hide Bit;
    forall i: nat | i < 8 * |s| ensures BitAt(t, i) <==> (BitAt(s, i) <==> i >= 8 * (|s| - 1)) {
      BitOps(s[i / 8], 0, i % 8);
    }
  }

  /** All bytes are turned over. */
  lemma Inverted(s: seq<bv8>, t: seq<bv8>, n: nat)
    requires |s| == |t| == BytesFor(n) && n % 8 == 0 && forall j :: 0 <= j < |s| ==> t[j] == !s[j]
    ensures Clean(t, n) && Members(t, n) == Below(n) - Members(s, n)
  {
    hide Bit;
    forall i: nat | i < 8 * |s| ensures BitAt(t, i) <==> !BitAt(s, i) {
      BitOps(s[i / 8], 0, i % 8);
    }
  }

  lemma Trimmed(s: seq<bv8>, t: seq<bv8>, n: nat)
    requires n > 0 && |s| == |t| == BytesFor(n) && forall j :: 0 <= j < |s| - 1 ==> t[j] == s[j]
    requires t[|t| - 1] == if n % 8 != 0 then s[|s| - 1] & Leading(n % 8) else s[|s| - 1]
    ensures Clean(t, n) && Members(t, n) == Members(s, n)
  {
    hide Bit, Leading;
    forall i: nat | i < 8 * |s| ensures BitAt(t, i) <==> BitAt(s, i) && i < n {
      if n % 8 != 0 {
        BitOps(s[i / 8], Leading(n % 8), i % 8);
        BitLeading(n % 8, i % 8);
      }
    }
  }

  lemma CleanMembers(s: seq<bv8>, n: nat)
    requires |s| == BytesFor(n) && Clean(s, n)
    ensures n <= 8 * |s| && Members(s, 8 * |s|) == Members(s, n) && |Members(s, n)| <= n
  {
    MembersMonotone(s, n, n);
  }

  lemma OnesNone()
    ensures Ones(0) == 0 && Pow2(0) == 1
  {
  }

  lemma Doubles(i: nat)
    requires i < 8
    ensures Pow2(i + 1) == 2 * Pow2(i) <= 256 && Pow2(8) == 256
  {
    assert Pow2(3) == 8 && Pow2(6) == 8 * Pow2(3) && Pow2(8) == 256;
  }

  lemma Zeros(s: seq<bv8>, n: nat)
    requires |s| == BytesFor(n) && forall j :: 0 <= j < |s| ==> s[j] == 0
    ensures Clean(s, n) && Members(s, n) == {}
  {
    hide Bit;
    forall i: nat | i < 8 * |s| ensures !BitAt(s, i) {
      BitOps(0, 0, i % 8);
    }
  }

  lemma Filled(s: seq<bv8>, n: nat)
    requires n > 0 && |s| == BytesFor(n) && forall j :: 0 <= j < |s| - 1 ==> s[j] == 0xff
    requires s[|s| - 1] == if n % 8 != 0 then Leading(n % 8) else 0xff
    ensures Clean(s, n) && Members(s, n) == Below(n)
  {
    hide Bit, Leading;
    forall i: nat | i < 8 * |s| ensures BitAt(s, i) <==> i < n {
      BitOps(0, 0, i % 8);
      if n % 8 != 0 {
        BitLeading(n % 8, i % 8);
      }
    }
  }
}
