/** The torrent data on disk: real files that hold growing prefixes, and staging files that hold bytes beyond them
    until they are merged (btfiles.cpp). */
module FileStore {
  import opened Bytes
  import opened FileLayout
  import opened FileMerges
  import opened FileReads
  import opened FileWrites
  import opened Options
  import opened Sequences

  /** A BTFILE node. */
  class File {
    const offset: nat
    const length: nat
    const staging: bool
    var data: seq<byte>          // its length is bf_size
    var next: File?
    var nextReal: File?

    constructor (offset: nat, length: nat, staging: bool, data: seq<byte>)
      ensures this.offset == offset && this.length == length && this.staging == staging && this.data == data
    {
      this.offset, this.length, this.staging, this.data := offset, length, staging, data;
      next, nextReal := null, null;
    }

    function Value(): Ext
      reads this`data
    {
      Ext(offset, length, staging, data)
    }
  }

  function At(s: seq<File>, i: int): File? {
    if 0 <= i < |s| then s[i] else null
  }

  /** The nodes hold the values `xs`. */
  ghost predicate Holds(list: seq<File>, xs: seq<Ext>)
    reads list`data
  {
    |list| == |xs| && forall i :: 0 <= i < |list| ==> list[i].Value() == xs[i]
  }

  ghost predicate Linked(list: seq<File>, xs: seq<Ext>)
    reads list`next, list`nextReal
  {
    && |list| == |xs|
    && (forall i {:trigger list[i].next} :: 0 <= i < |list| ==> list[i].next == At(list, i + 1))
    && (forall i {:trigger list[i].nextReal} :: 0 <= i < |list| ==> list[i].nextReal == At(list, RealAfter(xs, i)))
  }

  /** Entry `i` of the list with `file` put in at `j` has the real successor its counterpart had. */
  lemma RealNextWith(list: seq<File>, xs: seq<Ext>, j: nat, file: File, x: Ext, i: nat)
    requires |list| == |xs| && 0 < j <= |xs| && x.staging && i <= |xs|
    ensures At(With(list, j, file), RealAfter(With(xs, j, x), i)) == At(list, RealAfter(xs, if i < j then i else i - 1))
  {
    var k := if i < j then i else i - 1;
    RealAfterIs(xs, 0, k);
    RealAfterWith(xs, j, x, k);
  }

  lemma RealNextWithout(list: seq<File>, xs: seq<Ext>, j: nat, i: nat)
    requires |list| == |xs| && 0 < j < |xs| && xs[j].staging && i < |xs| - 1
    ensures At(Without(list, j), RealAfter(Without(xs, j), i)) == At(list, RealAfter(xs, if i < j then i else i + 1))
  {
    var k := if i < j then i else i + 1;
    RealAfterIs(xs, 0, k);
    RealAfterWithout(xs, j, k);
  }

  /** A list of real files only. */
  ghost predicate Plain(list: seq<File>)
    reads list`next, list`nextReal
  {
    && (forall i {:trigger list[i].next} :: 0 <= i < |list| ==> list[i].next == At(list, i + 1))
    && (forall i {:trigger list[i].nextReal} :: 0 <= i < |list| ==> list[i].nextReal == At(list, i + 1))
  }

  lemma PlainLinked(list: seq<File>, xs: seq<Ext>)
    requires Plain(list) && |list| == |xs| && forall i :: 0 <= i < |xs| ==> RealAfter(xs, i) == i + 1
    ensures Linked(list, xs)
  {
  }

  /** Change the data of one node. */
  method SetData(pbf: File, ghost list: seq<File>, ghost xs: seq<Ext>, ghost j: nat, data: seq<byte>)
    requires Holds(list, xs) && Distinct(list) && j < |list| && pbf == list[j]
    modifies pbf`data
    ensures Holds(list, xs[j := xs[j].(data := data)]) && pbf.data == data
  {
    pbf.data := data;
  }

  lemma LinkedUpdate(list: seq<File>, xs: seq<Ext>, j: nat, data: seq<byte>)
    requires Linked(list, xs) && j < |xs|
    ensures Linked(list, xs[j := xs[j].(data := data)])
  {
    hide RealAfter;
    forall i | 0 <= i < |xs| ensures RealAfter(xs[j := xs[j].(data := data)], i) == RealAfter(xs, i) {
      RealAfterUpdate(xs, j, data, i);
    }
  }

  /** Put `file`, a staging file with value `x`, behind entry `j - 1`. */
  method LinkAfter(file: File, ref: File, ghost list: seq<File>, ghost xs: seq<Ext>, ghost j: nat, ghost x: Ext)
    requires Linked(list, xs) && Distinct(list) && 0 < j <= |list| && ref == list[j - 1] && file !in list && x.staging
    modifies ref`next, file`next, file`nextReal
    ensures Linked(With(list, j, file), With(xs, j, x))
  {
    ghost var list', xs' := With(list, j, file), With(xs, j, x);
    hide RealAfter, With;
    file.next := ref.next;
    file.nextReal := ref.nextReal;
    ref.next := file;
    forall i | 0 <= i < |list'| ensures list'[i].next == At(list', i + 1) && list'[i].nextReal == At(list', RealAfter(xs', i)) {
      RealNextWith(list, xs, j, file, x, i);
      assert i != j - 1 ==> list'[i] != ref;
    }
  }

  /** Take the staging file behind entry `j` out of the list. */
  method UnlinkAfter(ref: File, ghost list: seq<File>, ghost xs: seq<Ext>, ghost j: nat)
    requires Linked(list, xs) && Distinct(list) && j + 1 < |list| && ref == list[j] && xs[j + 1].staging
    modifies ref`next
    ensures Linked(Without(list, j + 1), Without(xs, j + 1))
  {
    ghost var list', xs' := Without(list, j + 1), Without(xs, j + 1);
    hide RealAfter, Without;
    ref.next := ref.next.next;
    forall i | 0 <= i < |list'| ensures list'[i].next == At(list', i + 1) && list'[i].nextReal == At(list', RealAfter(xs', i)) {
      RealNextWithout(list, xs, j + 1, i);
      assert i != j ==> list'[i] != ref;
    }
  }

  class Files {
    const total: nat
    var head: File?              // m_btfhead
    var needMerge: bool
    ghost var list: seq<File>
    ghost var xs: seq<Ext>       // what the files hold, in list order

    /** A torrent of files of the given lengths, none of them begun. */
    constructor (lengths: seq<nat>)
      requires lengths != []
      ensures Valid() && total == Sum(lengths) && !needMerge && fresh(list)
      ensures xs == Fresh(lengths, 0) && forall i: nat :: View(xs, i) == None
    {
      total, head, needMerge, list, xs := Sum(lengths), null, false, [], [];
      new;
      BuildAll(lengths);
    }

    /** A file for each length, from the last to the first. */
    method BuildAll(lengths: seq<nat>)
      requires lengths != [] && total == Sum(lengths) && head == null && !needMerge && list == [] && xs == []
      modifies this`head, this`list, this`xs
      ensures Valid() && !needMerge && fresh(list)
      ensures xs == Fresh(lengths, 0) && forall i: nat :: View(xs, i) == None
    {
      hide *;
      var n, off := |lengths|, total;
      NoneBuilt(lengths);
      while n > 0
        invariant 0 <= n <= |lengths| && 0 <= off && off + Sum(lengths[n..]) == total && xs == Fresh(lengths[n..], off)
        invariant Begun() && !needMerge && fresh(list)
      {
        n := n - 1;
        FreshFrom(lengths, n, off);
        off := off - lengths[n];
        Prepend(off, lengths[n]);
      }
      assert lengths[0..] == lengths;
      FromZero(lengths, off);
      Built(lengths);
    }

    lemma NoneBuilt(lengths: seq<nat>)
      requires head == null && list == [] && xs == []
      ensures Begun() && Sum(lengths[|lengths|..]) == 0 && forall off: nat :: Fresh(lengths[|lengths|..], off) == xs
    {
      assert lengths[|lengths|..] == [];
    }

    lemma FromZero(lengths: seq<nat>, off: nat)
      requires off + Sum(lengths) == total == Sum(lengths)
      ensures off == 0
    {
    }

    /** What the list is while the constructor builds it from its end. */
    ghost predicate Begun()
      reads this, list`data, list`next, list`nextReal
    {
      Plain(list) && head == At(list, 0) && Distinct(list) && Holds(list, xs)
    }

    lemma Built(lengths: seq<nat>)
      requires Begun() && lengths != [] && xs == Fresh(lengths, 0) && total == Sum(lengths)
      ensures Valid() && forall i: nat :: View(xs, i) == None
    {
      FreshTiled(lengths);
      hide RealAfter, Tiled, Fresh, Sum, View;
      PlainLinked(list, xs);
      forall i: nat ensures View(xs, i) == None { ViewNone(xs, i); }
      Assemble();
    }

    /** Put a real file without data in front of the list. */
    method Prepend(off: nat, length: nat)
      requires Begun()
      modifies this`head, this`list, this`xs
      ensures Begun() && fresh(head) && list == [head] + old(list) && xs == [Ext(off, length, false, [])] + old(xs)
    {
      var file := new File(off, length, false, []);
      file.next, file.nextReal := head, head;
      head, list, xs := file, [file] + list, [Ext(off, length, false, [])] + xs;
    }

    ghost predicate Chained()
      reads this`list, this`xs, this`head, list`next, list`nextReal
    {
      && Distinct(list) && 0 < |list| && list[0] == head
      && Linked(list, xs)
    }

    ghost predicate MergesKnown()
      reads this`needMerge, this`xs
    {
      needMerge || forall i :: 0 <= i < |xs| ==> !Mergeable(xs, i)
    }

    /** The list is linked, its files hold `xs`, `xs` is laid out right, and no possible merge goes unannounced. */
    ghost predicate Valid()
      reads this, list`data, list`next, list`nextReal
    {
      && Chained()
      && Holds(list, xs)
      && Tiled(xs, total)
      && MergesKnown()
    }

    lemma NodeFacts(j: nat)
      requires Valid() && j < |xs|
      ensures |list| == |xs| && list[j].Value() == xs[j]
      ensures list[j].next == At(list, j + 1) && list[j].nextReal == At(list, RealAfter(xs, j))
      ensures head == list[0]
    {
      hide RealAfter, Tiled;
    }

    lemma TiledFacts()
      requires Valid()
      ensures Tiled(xs, total) && |list| == |xs| && 0 < |xs| && xs[0].offset == 0 && !xs[0].staging
      ensures head == list[0] && Distinct(list)
    {
    }

    /** The first file to read at `off`, or the one to write to there, or the one before the gap that `off` lies in. */
    method Find(off: nat, write: bool) returns (pbf: File?, ref: File?, ghost j: nat)
      requires Valid() && off < total
      ensures j <= |list| == |xs| && (pbf != null ==> pbf == At(list, j))
      ensures write ==> j == Seek(xs, 0, off) && Place(pbf, ref, j, off)
      ensures !write ==> j == First(xs, off) || pbf == null
      ensures !write ==> (pbf == null <==> View(xs, off) == None)
    {
      hide Valid, Tiled, RealAfter, Linked, Holds, View, First;
      TiledFacts();
      FirstIs(off);
      pbf, ref, j := head, null, 0;
      while pbf != null
        invariant j <= |list| == |xs| && pbf == At(list, j)
        invariant forall k :: 0 <= k < j ==> xs[k].End() <= off
        invariant write ==> Seek(xs, 0, off) == Seek(xs, j, off)
        invariant j > 0 ==> ref == list[j - 1] || (j < |list| && xs[j].offset <= off)
        invariant j == 0 ==> pbf != null
        decreases |list| - j
      {
        NodeFacts(j);
        if off >= pbf.offset &&
           (off < pbf.offset + |pbf.data| ||
            (write && off == pbf.offset + |pbf.data| && (!pbf.staging || |pbf.data| < MAX_STAGEFILE_SIZE))) {
          return;
        }
        if off < pbf.offset {
          pbf := null;
          GapAhead(j, off);
          return;
        }
        ref := pbf;
        if !pbf.staging && off >= pbf.offset + pbf.length {
          SkipStaging(xs, total, j, off);
          j := RealAfter(xs, j);
          pbf := pbf.nextReal;
        } else {
          j := j + 1;
          pbf := pbf.next;
        }
      }
    }

    lemma FirstIs(off: nat)
      ensures View(xs, off) == None <==> forall k :: 0 <= k < |xs| ==> !xs[k].Covers(off)
      ensures forall j :: 0 <= j < |xs| && xs[j].Covers(off) && (forall k :: 0 <= k < j ==> !xs[k].Covers(off)) ==>
        j == First(xs, off)
    {
      ViewNone(xs, off);
    }

    lemma GapAhead(j: nat, off: nat)
      requires Valid() && j < |xs| && off < xs[j].offset && forall k :: 0 <= k < j ==> xs[k].End() <= off
      ensures 0 < j && forall k :: 0 <= k < |xs| ==> !xs[k].Covers(off)
    {
      hide Holds, Linked;
      assert forall k :: j <= k < |xs| ==> xs[j].offset <= xs[k].offset;
    }

    /** IO, reading: `len` bytes from `off`, over as many files as they lie in. None when out of range. A read that goes
        astray comes upon a file that ends before the place to read at; what it then returns may be anything. */
    method Read(off: nat, len: nat) returns (r: Option<seq<byte>>, strayed: bool)
      requires Valid() && (off + len <= total ==> Present(xs, off, len))
      ensures r.Some? <==> off + len <= total
      ensures r.Some? ==> |r.value| == len && (strayed <==> ReadAt(xs, off, len) == None)
      ensures r.Some? && !strayed ==> ReadAt(xs, off, len) == Some(r.value)
      ensures r.None? ==> !strayed
    {
      hide Valid, Tiled, RealAfter, Linked, Holds, View, Present, Walk, Joined, First, ReadAt, Strays, Stands;
      if off + len > total { return None, false; }
      var data: seq<byte> := [];
      ghost var j: nat := First(xs, off);
      var pos := off;
      var pbf: File? := null;
      TiledFacts();
      WalkBegin(xs, off, len);
      if len > 0 {
        TiledInRow(xs, total);
        FirstStands(off, len);
        var ref;
        pbf, ref, j := Find(off, false);
      }
      while |data| < len
        invariant pos == off + |data| && |data| <= len && j <= |list| == |xs|
        invariant |data| < len ==> j < |xs| && pbf == list[j] && Walking(j, off, pos)
        invariant Joined(data, Walk(xs, j, pos, len - |data|)) == ReadAt(xs, off, len)
        decreases len - |data|, |list| - j
      {
        NodeFacts(j);
        var at := pos - pbf.offset;
        if at > |pbf.data| {
          WalkEnd(xs, j, pos, len - |data|, data);
          var beyond := Beyond(len - |data|);
          return Some(data + beyond), true;
        }
        var nio := if len - |data| <= |pbf.data| - at then len - |data| else |pbf.data| - at;
        WalkStep(xs, j, pos, len - |data|, data);
        ghost var from := pos;
        data := data + pbf.data[at..at + nio];
        pos := pos + nio;
        if |data| < len {
          WalkOn(j, off, len, from);
          NodeFacts(j + 1);
          pbf, j := pbf.next, j + 1;
          if pos < pbf.offset { assert false; }
        } else {
          j := j + 1;
        }
      }
      WalkEnd(xs, j, pos, 0, data);
      return Some(data), false;
    }

    /** The walk has come to entry `j` for the bytes from `pos` on; right, if the entry reaches that far. */
    ghost predicate Walking(j: nat, off: nat, pos: nat)
      requires j < |xs|
      reads this`xs
    {
      xs[j].offset <= pos && (pos <= xs[j].End() ==> Stands(xs, j, off, pos))
    }

    lemma WalkOn(j: nat, off: nat, len: nat, pos: nat)
      requires j < |xs| && InRow(xs) && Present(xs, off, len) && Walking(j, off, pos) && pos <= xs[j].End() < off + len
      ensures j + 1 < |xs| && xs[j + 1].offset <= xs[j].End() && Walking(j + 1, off, xs[j].End())
    {
      hide InRow, Present, Stands, Strays;
      StandsNext(xs, j, off, len, pos);
    }

    lemma FirstStands(off: nat, len: nat)
      requires Valid() && 0 < len && Present(xs, off, len)
      ensures View(xs, off).Some? && First(xs, off) < |xs| && Walking(First(xs, off), off, off)
    {
      ViewNone(xs, off);
      assert View(xs, off).Some?;
      forall k | 0 <= k < First(xs, off) ensures xs[k].End() <= off {
        assert xs[k].offset <= xs[First(xs, off)].offset;
      }
    }

    /** Whatever a read past the end of a file leaves in the buffer. */
    method Beyond(len: nat) returns (r: seq<byte>)
      ensures |r| == len
    {
      r := *;
      if |r| != len {
        r := seq(len, _ => 0);
      }
    }

    lemma Parts()
      requires Valid()
      ensures Chained() && Holds(list, xs) && Linked(list, xs) && MergesKnown()
    {
    }

    lemma Assemble()
      requires Distinct(list) && 0 < |list| && list[0] == head && Linked(list, xs)
      requires Holds(list, xs) && Tiled(xs, total) && MergesKnown()
      ensures Valid()
    {
    }

    /** The nodes are linked and hold `xs`. */
    ghost predicate Shaped()
      reads this`list, this`xs, this`head, list`data, list`next, list`nextReal
    {
      Chained() && Holds(list, xs)
    }

    lemma ShapedFacts(j: nat)
      requires Shaped() && j < |xs|
      ensures |list| == |xs| && list[j].Value() == xs[j] && list[j].next == At(list, j + 1) && Distinct(list) && 0 < |list|
    {
      hide RealAfter;
    }

    /** Change what entry `j` holds. */
    method PutEntry(pbf: File, ghost j: nat, data: seq<byte>)
      requires Shaped() && j < |list| == |xs| && pbf == list[j]
      modifies this`xs, pbf`data
      ensures Shaped() && xs == old(xs)[j := old(xs)[j].(data := data)]
    {
      hide RealAfter, Linked, Holds, Distinct;
      LinkedUpdate(list, xs, j, data);
      SetData(pbf, list, xs, j, data);
      xs := xs[j := xs[j].(data := data)];
    }

    /** Put a new staging file behind `ref`, with `part` in it. */
    method NewEntry(ref: File, ghost k: nat, off: nat, part: seq<byte>) returns (pbf: File)
      requires Shaped() && 0 < k <= |list| == |xs| && ref == list[k - 1]
      modifies this`list, this`xs, list`next
      ensures Shaped() && fresh(pbf) && pbf.staging && list == With(old(list), k, pbf)
      ensures xs == With(old(xs), k, Ext(off, 0, true, part))
    {
      hide RealAfter, Linked, Holds, Distinct, With;
      ghost var x := Ext(off, 0, true, part);
      pbf := new File(off, 0, true, part);
      ShapedFacts(0);
      LinkAfter(pbf, ref, list, xs, k, x);
      HoldsWith(list, xs, k, pbf, x);
      list := With(list, k, pbf);
      xs := With(xs, k, x);
    }

    lemma HoldsWith(list: seq<File>, xs: seq<Ext>, j: nat, file: File, x: Ext)
      requires Holds(list, xs) && 0 < j <= |list| && Distinct(list) && file !in list
      requires file.offset == x.offset && file.length == x.length && file.staging == x.staging && file.data == x.data
      ensures Holds(With(list, j, file), With(xs, j, x)) && Distinct(With(list, j, file)) && With(list, j, file)[0] == list[0]
    {
      WithElements(list, j, file);
    }

    /** The outcome of a round as it is in the list. */
    twostate predicate Made(s: Round, ok: bool, left: bool, lost: bool, nio: nat)
      reads this`needMerge, this`xs
    {
      && xs == s.xs && nio == s.nio && ok == !s.stop && left == s.left && lost == s.lost
      && needMerge == (old(needMerge) || s.merge)
    }

    /** How many bytes go into the file, and whether the room in it is taken to be more than any length. */
    method ShareOf(pbf: File, ghost j: nat, off: nat, len: nat) returns (nio: nat, wraps: bool)
      requires Shaped() && j < |list| == |xs| && pbf == list[j] && xs[j].offset <= off
      ensures nio == Share(xs, j, off, len) && wraps == Wraps(xs, j, off)
    {
      hide RealAfter, Linked, Holds, Distinct, Chained, Shaped;
      ShapedFacts(j);
      if j + 1 < |xs| { ShapedFacts(j + 1); }
      wraps := false;
      if pbf.staging {
        nio := len;
        if pbf.next != null {
          nio := UpTo(len, off, pbf.next.offset);
          wraps := pbf.next.offset < off;
        }
      } else {
        nio := UpTo(len, off, pbf.offset + pbf.length);
      }
    }

    /** Announce a merge that has become possible. */
    method Announce(pbf: File, ghost j: nat)
      requires Shaped() && j < |list| == |xs| && pbf == list[j]
      modifies this`needMerge
      ensures Shaped() && needMerge == (old(needMerge) || Mergeable(xs, j))
    {
      hide RealAfter, Linked, Holds, Distinct, Chained;
      ShapedFacts(j);
      if j + 1 < |xs| { ShapedFacts(j + 1); }
      if !pbf.staging && |pbf.data| < pbf.length && pbf.next != null && pbf.next.staging &&
         pbf.offset + |pbf.data| >= pbf.next.offset {
        needMerge := true;
      }
    }

    /** A round of a write that goes into a file that is there. */
    method EnterRound(pbf: File, ghost j: nat, off: nat, buf: seq<byte>, disk: Disk)
      returns (ok: bool, lost: bool, nio: nat)
      requires Shaped() && j < |list| == |xs| && pbf == list[j] && buf != [] && xs[j].offset <= off && !Full(xs[j], off)
      modifies this`needMerge, this`xs, pbf`data
      ensures Shaped() && Made(RoundAt(old(xs), j, off, buf, disk), ok, false, lost, nio)
    {
      hide RealAfter, Linked, Holds, Distinct, Chained, Shaped, RoundAt, Full, Share, Wraps, Put, Torn, Mergeable;
      ShapedFacts(j);
      EnteredRound(xs, j, off, buf, disk);
      nio, lost := ShareOf(pbf, j, off, |buf|);
      if disk.good == 0 {
        PutEntry(pbf, j, Torn(pbf.Value(), off, disk.torn, nio).data);
        return false, false, nio;
      }
      PutEntry(pbf, j, Put(pbf.Value(), off, buf[..nio]).data);
      Announce(pbf, j);
      ok := true;
    }

    /** A round of a write that makes a new staging file behind `ref`. If it cannot be written, it stays, empty. */
    method CreateRound(ref: File, ghost j: nat, ghost k: nat, off: nat, buf: seq<byte>, disk: Disk)
      returns (ok: bool, pbf: File, nio: nat)
      requires Shaped() && 0 < k <= |list| == |xs| && ref == list[k - 1] && buf != [] && j <= |xs| && Creates(xs, j, off)
      requires k == if j < |xs| && xs[j].offset <= off then j + 1 else j
      modifies this`list, this`xs, list`next
      ensures Shaped() && Made(RoundAt(old(xs), j, off, buf, disk), ok, !ok, false, nio)
      ensures fresh(pbf) && pbf.staging && list == With(old(list), k, pbf)
    {
      hide RealAfter, Linked, Holds, Distinct, Chained, Shaped, RoundAt, Creates, With;
      CreatedRound(xs, j, k, off, buf, disk);
      ShapedFacts(k - 1);
      if k < |xs| { ShapedFacts(k); }
      nio := if ref.next == null then |buf| else UpTo(|buf|, off, ref.next.offset);
      ok := disk.good > 0;
      pbf := NewEntry(ref, k, off, if ok then buf[..nio] else []);
    }

    lemma RoundFacts(j: nat, off: nat, buf: seq<byte>, disk: Disk)
      requires Tiled(xs, total) && j <= |xs| && Arrives(xs, j, off) && buf != [] && off + |buf| <= total
      ensures var s := RoundAt(xs, j, off, buf, disk);
        !s.stop && !s.lost ==> Tiled(s.xs, total) && (s.nio < |buf| ==>
          s.next < |s.xs| && s.xs[s.next].offset <= off + s.nio && Arrives(s.xs, s.next, off + s.nio))
    {
      hide RoundAt, Tiled, Arrives, ViewWritten, ChangedWithin, Outside, Covered, Wraps, Full;
      RoundRight(xs, total, j, off, buf, disk);
    }

    /** Entry `j` is where to write at `off`, or where a new entry is to go, behind `ref`. */
    ghost predicate Place(pbf: File?, ref: File?, j: nat, off: nat)
      reads this`list, this`xs
    {
      && j <= |list| == |xs|
      && (pbf == null <==> j == |list| || off < xs[j].offset)
      && (if pbf != null then pbf == list[j] else j > 0 && ref == list[j - 1])
    }

    /** One round of a write. */
    method WriteRound(pbf0: File?, ref: File?, ghost j: nat, off: nat, buf: seq<byte>, disk: Disk)
      returns (ok: bool, left: bool, lost: bool, nio: nat, pbf: File, ghost next: nat)
      requires Shaped() && buf != [] && j <= |list| == |xs| && Place(pbf0, ref, j, off)
      modifies this`needMerge, this`list, this`xs, list`next, list`data
      ensures Shaped() && |list| == |xs| && Made(RoundAt(old(xs), j, off, buf, disk), ok, left, lost, nio)
      ensures next == RoundAt(old(xs), j, off, buf, disk).next && next > 0 && pbf == list[next - 1]
      ensures forall i :: 0 <= i < |list| ==> list[i] in old(list) || (fresh(list[i]) && list[i].staging)
    {
      hide RealAfter, Linked, Holds, Distinct, Chained, Shaped;
      if j < |xs| { ShapedFacts(j); }
      next := RoundAt(xs, j, off, buf, disk).next;
      left, lost := false, false;
      if pbf0 != null && pbf0.staging && |pbf0.data| >= MAX_STAGEFILE_SIZE && off == pbf0.offset + |pbf0.data| {
        ok, pbf, nio := CreateRound(pbf0, j, j + 1, off, buf, disk);
        left := !ok;
      } else if pbf0 == null {
        ok, pbf, nio := CreateRound(ref, j, j, off, buf, disk);
        left := !ok;
      } else {
        pbf := pbf0;
        ok, lost, nio := EnterRound(pbf, j, off, buf, disk);
      }
    }

    lemma PlaceNext(p: File, next: nat, off: nat)
      requires Shaped() && 0 < next < |xs| && |list| == |xs| && p == list[next - 1] && xs[next].offset <= off
      ensures p.next != null && p.next.offset <= off && Place(p.next, p, next, off)
    {
      hide RealAfter;
      ShapedFacts(next - 1);
      ShapedFacts(next);
    }

    /** Round by round, from the first file on. */
    method WriteLoop(off: nat, buf: seq<byte>, disk: Disk) returns (ok: bool, left: bool, lost: bool)
      requires Valid() && buf != [] && off + |buf| <= total
      modifies this`needMerge, this`list, this`xs, list`next, list`data
      ensures Shaped() && Did(WriteAt(old(xs), off, buf, disk), ok, left, lost)
      ensures forall i :: 0 <= i < |list| ==> list[i] in old(list) || (fresh(list[i]) && list[i].staging)
    {
      hide RealAfter, Linked, Holds, Valid, Tiled, Chained, Shaped, RoundAt, Arrives, Seek, Full, WriteFrom, Place;
      Parts();
      TiledFacts();
      AsShaped();
      SeekFirst(xs, total, off);
      ghost var all := WriteAt(xs, off, buf, disk);
      var pbf, ref;
      ghost var j: nat;
      pbf, ref, j := Find(off, true);
      var done: nat, d := 0, disk;
      while true
        invariant Shaped() && done < |buf| && Tiled(xs, total) && j <= |list| == |xs|
        invariant Place(pbf, ref, j, off + done) && Arrives(xs, j, off + done)
        invariant forall i :: 0 <= i < |list| ==> list[i] in old(list) || (fresh(list[i]) && list[i].staging)
        invariant Follows(all, WriteFrom(xs, j, off + done, buf[done..], d), old(needMerge))
        decreases |buf| - done, |list| - j
      {
        var rest := buf[done..];
        RoundFacts(j, off + done, rest, d);
        GoesOn(xs, j, off + done, rest, d);
        FromRound(xs, j, off + done, rest, d);
        var nio, p;
        ghost var next;
        ok, left, lost, nio, p, next := WriteRound(pbf, ref, j, off + done, rest, d);
        if !ok || lost || nio == |rest| {
          return;
        }
        assert rest[nio..] == buf[done + nio..];
        done, d := done + nio, d.(good := d.good - 1);
        PlaceNext(p, next, off + done);
        ref, pbf, j := p, p.next, next;
        if off + done < pbf.offset {
          assert false;
        }
      }
    }

    lemma AsShaped()
      requires Valid()
      ensures Shaped()
    {
    }

    /** IO, writing: `buf` at `off`, over as many files as it takes. Not `ok` when out of range or when the disk fails;
        `left` when that leaves an empty staging file behind; `lost` when it has gone astray. */
    method Write(off: nat, buf: seq<byte>, disk: Disk) returns (ok: bool, left: bool, lost: bool)
      requires Valid()
      modifies this`needMerge, this`list, this`xs, list`next, list`data
      ensures off + |buf| > total ==> !ok && !left && !lost && xs == old(xs) && list == old(list)
      ensures off + |buf| <= total ==> Did(WriteAt(old(xs), off, buf, disk), ok, left, lost)
      ensures if lost then Shaped() else Valid()
      ensures off + |buf| <= total ==> WriteFits(old(xs), total, off, buf, WriteAt(old(xs), off, buf, disk))
      ensures forall i :: 0 <= i < |list| ==> list[i] in old(list) || (fresh(list[i]) && list[i].staging)
    {
      hide RealAfter, Linked, Holds, Valid, Tiled, Chained, Shaped, RoundAt, Arrives, Seek, Mergeable;
      hide ViewWritten, ChangedWithin, Outside;
      Parts();
      TiledFacts();
      if off + |buf| > total { return false, false, false; }
      WriteRight(xs, total, off, buf, disk);
      WriteMergesToo(off, buf, disk);
      ok, left, lost := true, false, false;
      if |buf| > 0 {
        ok, left, lost := WriteLoop(off, buf, disk);
      }
      if !lost { Again(); }
    }

    lemma WriteMergesToo(off: nat, buf: seq<byte>, disk: Disk)
      requires Tiled(xs, total) && MergesKnown() && off + |buf| <= total
      ensures var r := WriteAt(xs, off, buf, disk);
        r.lost || r.merge || needMerge || forall i :: 0 <= i < |r.xs| ==> !Mergeable(r.xs, i)
    {
      if !needMerge { WriteMerges(xs, total, off, buf, disk); }
    }

    lemma Again()
      requires Shaped() && Tiled(xs, total) && MergesKnown()
      ensures Valid()
    {
    }

    /** What is left to do is the rest of what there was to do. */
    ghost predicate Follows(r: Done, w: Done, merge0: bool)
      reads this`needMerge
    {
      && r.xs == w.xs && r.ok == w.ok && r.left == w.left && r.lost == w.lost
      && (merge0 || r.merge) == (needMerge || w.merge)
    }

    twostate predicate Did(r: Done, ok: bool, left: bool, lost: bool)
      reads this`needMerge, this`xs
    {
      xs == r.xs && ok == r.ok && left == r.left && lost == r.lost && needMerge == (old(needMerge) || r.merge)
    }

    /** Copying `nio` more bytes of the staging file makes the merge `nio` bytes longer. */
    lemma MergeMore(xs: seq<Ext>, j: nat, t: nat, nio: nat)
      requires Mergeable(xs, j) && 0 < nio && t + nio <= Rest(xs, j)
      ensures var m := xs[j].End() - xs[j + 1].offset;
        var more := Merged(xs, j, t)[j].data + xs[j + 1].data[m + t..m + t + nio];
        && Merged(xs, j, t)[j := Merged(xs, j, t)[j].(data := more)] == Merged(xs, j, t + nio)
        && Merged(xs, j, t + nio)[j].data == more
    {
      var m := xs[j].End() - xs[j + 1].offset;
      var part, more := xs[j + 1].data[m..m + t], xs[j + 1].data[m + t..m + t + nio];
      assert part + more == xs[j + 1].data[m..m + t + nio];
      assert MergePart(xs, j, t) == part;
      assert xs[j].data + part + more == xs[j].data + (part + more);
    }

    lemma MergeStart(xs: seq<Ext>, j: nat)
      requires Mergeable(xs, j) && Tiled(xs, total)
      ensures xs[j].End() + Rest(xs, j) <= xs[j].offset + xs[j].length && Merged(xs, j, 0) == xs
    {
      assert EntryTiled(xs, total, j) && EntryTiled(xs, total, j + 1);
      LimitBounds(xs, total, j, j + 1);
      assert xs[j].data + MergePart(xs, j, 0) == xs[j].data;
    }

    lemma CopyFacts(dst: File, src: File, j: nat)
      requires Holds(list, xs) && Distinct(list) && j + 1 < |list| && dst == list[j] && src == list[j + 1]
      ensures |list| == |xs| && dst != src && dst.Value() == xs[j] && src.Value() == xs[j + 1]
      ensures Mergeable(xs, j) ==> xs[j + 1].offset <= xs[j].End()
    {
    }

    /** Copy the rest of the staging file behind `dst` to its end, on a disk on which `good` writes go well. */
    method CopyRest(dst: File, src: File, ghost j: nat, good: nat) returns (ok: bool, ghost t: nat, spare: nat)
      requires Holds(list, xs) && Distinct(list) && Mergeable(xs, j) && Tiled(xs, total)
      requires j + 1 < |list| && dst == list[j] && src == list[j + 1] && xs[j].End() < xs[j + 1].End()
      modifies dst`data
      ensures t <= Rest(xs, j) && Holds(list, Merged(xs, j, t))
      ensures ok <==> Rest(xs, j) <= good * OPT_IO_SIZE
      ensures if ok then t == Rest(xs, j) && spare == good - Portions(t) else t == good * OPT_IO_SIZE && spare == 0
    {
      hide Tiled, Merged, MergePart, Mergeable, Holds, Distinct;
      MergeStart(xs, j);
      CopyFacts(dst, src, j);
      var pos := dst.offset + |dst.data| - src.offset;
      var remain := |src.data| - pos;
      t, spare := 0, good;
      while remain > 0 && |dst.data| < dst.length
        invariant 0 <= remain && xs[j].End() + t + remain == xs[j + 1].End() && pos == xs[j].End() - xs[j + 1].offset + t
        invariant Holds(list, Merged(xs, j, t)) && dst.data == Merged(xs, j, t)[j].data && |dst.data| == |xs[j].data| + t
        invariant src.data == xs[j + 1].data && spare <= good
        invariant if remain > 0 then t == (good - spare) * OPT_IO_SIZE else good - spare == Portions(t)
        decreases remain
      {
        var nio := if remain < OPT_IO_SIZE then remain else OPT_IO_SIZE;
        if spare == 0 {
          return false, t, 0;
        }
        spare := spare - 1;
        MergeMore(xs, j, t, nio);
        SetData(dst, list, Merged(xs, j, t), j, dst.data + src.data[pos..pos + nio]);
        remain, pos, t := remain - nio, pos + nio, t + nio;
      }
      ok := true;
    }

    /** Merge the staging file behind `dst` into it. What is shown never changes, whether or not a write fails. */
    method MergeStaging(dst: File, ghost j: nat, good: nat) returns (ok: bool, spare: nat)
      requires Valid() && j < |list| == |xs| && dst == list[j] && Mergeable(xs, j)
      modifies this`list, this`xs, dst`data, dst`next
      ensures Valid() && SameView(old(xs), xs) && needMerge && (Strict(old(xs)) ==> Strict(xs))
      ensures MergeRun(xs, ok, !ok, spare) == MergeOne(old(xs), j, good)
      ensures if ok then list == Without(old(list), j + 1) else list == old(list)
      ensures |list| == |xs| && j < |xs| && !xs[j].staging && forall i :: 0 <= i < j ==> xs[i] == old(xs)[i]
    {
      MergeFacts(j);
      hide *;
      TiledFacts();
      Parts();
      MergeStart(xs, j);
      RestIs(xs, j, good);
      var src := dst.next;
      ghost var t := 0;
      ok, spare := true, good;
      if src.offset + |src.data| > dst.offset + |dst.data| {
        ok, t, spare := CopyRest(dst, src, j, good);
      }
      if ok { FinishMerge(dst, j, t); } else { StopMerge(j, t); }
    }

    lemma RestIs(xs: seq<Ext>, j: nat, good: nat)
      requires Mergeable(xs, j)
      ensures Rest(xs, j) == 0 <==> xs[j + 1].End() <= xs[j].End()
      ensures Portions(0) == 0 && 0 <= good * OPT_IO_SIZE
      ensures MergeOne(xs, j, good) == (var rest := Rest(xs, j);
        if rest <= good * OPT_IO_SIZE then MergeRun(Without(Merged(xs, j, rest), j + 1), true, false, good - Portions(rest))
        else MergeRun(Merged(xs, j, good * OPT_IO_SIZE), false, true, 0))
    {
    }

    lemma MergeFacts(j: nat)
      requires Valid() && j < |list| == |xs| && Mergeable(xs, j)
      ensures needMerge && j + 1 < |list|
      ensures list[j].next == list[j + 1] && list[j].Value() == xs[j] && list[j + 1].Value() == xs[j + 1]
    {
      hide RealAfter;
      NodeFacts(j);
      NodeFacts(j + 1);
    }

    /** The staging file is copied: take it out. */
    method FinishMerge(dst: File, ghost j: nat, ghost t: nat)
      requires Tiled(xs, total) && Linked(list, xs) && Distinct(list) && 0 < |list| && list[0] == head
      requires Mergeable(xs, j) && j + 1 < |list| == |xs| && dst == list[j] && needMerge
      requires t == Rest(xs, j) && Holds(list, Merged(xs, j, t))
      modifies this`list, this`xs, dst`next
      ensures Valid() && SameView(old(xs), xs) && (Strict(old(xs)) ==> Strict(xs))
      ensures list == Without(old(list), j + 1) && xs == Without(Merged(old(xs), j, t), j + 1)
      ensures |list| == |xs| && j < |xs| && !xs[j].staging && forall i :: 0 <= i < j ==> xs[i] == old(xs)[i]
    {
      hide RealAfter, Linked, Holds, View, SameView, Tiled, Distinct, Strict;
      MergeDone(xs, total, j);
      if Strict(xs) { MergeDoneStrict(xs, total, j); }
      LinkedUpdate(list, xs, j, xs[j].data + MergePart(xs, j, t));
      UnlinkAfter(dst, list, Merged(xs, j, t), j);
      HoldsWithout(list, Merged(xs, j, t), j + 1);
      list := Without(list, j + 1);
      xs := Without(Merged(xs, j, t), j + 1);
      Assemble();
    }

    /** A write failed on the way: the staging file stays. */
    ghost method StopMerge(j: nat, t: nat)
      requires Tiled(xs, total) && Linked(list, xs) && Distinct(list) && 0 < |list| && list[0] == head
      requires Mergeable(xs, j) && j + 1 < |list| == |xs| && needMerge
      requires t < Rest(xs, j) && Holds(list, Merged(xs, j, t))
      modifies this`xs
      ensures Valid() && SameView(old(xs), xs) && (Strict(old(xs)) ==> Strict(xs)) && xs == Merged(old(xs), j, t)
      ensures |list| == |xs| && j < |xs| && !xs[j].staging && forall i :: 0 <= i < j ==> xs[i] == old(xs)[i]
    {
      hide RealAfter, Linked, Holds, View, SameView, Tiled, Distinct, Strict;
      MergedView(xs, total, j, t);
      MergedTiled(xs, total, j, t);
      if Strict(xs) { MergedStrict(xs, j, t); }
      LinkedUpdate(list, xs, j, xs[j].data + MergePart(xs, j, t));
      xs := Merged(xs, j, t);
      Assemble();
    }

    lemma HoldsWithout(list: seq<File>, xs: seq<Ext>, j: nat)
      requires Holds(list, xs) && 0 < j < |list| && Distinct(list)
      ensures Holds(Without(list, j), Without(xs, j)) && Distinct(Without(list, j)) && Without(list, j)[0] == list[0]
    {
      WithoutDistinct(list, j);
    }

    /** MergeStaging where the search has found something to merge. */
    method MergeAt(pbf: File, ghost j: nat, ghost findall: bool, good: nat) returns (failed: bool, spare: nat)
      requires Valid() && j + 1 < |list| == |xs| && pbf == list[j] && Mergeable(xs, j)
      requires forall i :: 0 <= i < j ==> !Mergeable(xs, i)
      modifies this`list, this`xs, pbf`data, pbf`next
      ensures Valid() && SameView(old(xs), xs) && needMerge && |list| == |xs| && j < |list|
      ensures Strict(old(xs)) ==> Strict(xs)
      ensures if failed || !findall then Merges(old(xs), findall, good) == MergeRun(xs, !failed, failed, spare)
        else Leads(Merges(old(xs), findall, good), Merges(xs, findall, spare), true)
      ensures if failed then list == old(list) else |list| == |old(list)| - 1
      ensures forall i :: 0 <= i < |list| ==> list[i] in old(list)
      ensures pbf == list[j] && pbf.Value() == xs[j] && pbf.next == At(list, j + 1)
      ensures j + 1 < |list| ==> list[j + 1].Value() == xs[j + 1]
      ensures forall i :: 0 <= i < j ==> !Mergeable(xs, i)
    {
      hide RealAfter, Linked, Holds, Valid, View, SameView, Tiled, Chained, MergesKnown, Strict, MergeOne;
      ghost var xs0 := xs;
      FirstHere(xs, j, findall, good);
      var ok;
      ok, spare := MergeStaging(pbf, j, good);
      failed := !ok;
      NodeFacts(j);
      if j + 1 < |list| { NodeFacts(j + 1); }
      forall i | 0 <= i < j ensures !Mergeable(xs, i) { assert !Mergeable(xs0, i); }
    }

    lemma FirstHere(xs: seq<Ext>, j: nat, findall: bool, good: nat)
      requires j < |xs| && Mergeable(xs, j) && forall i :: 0 <= i < j ==> !Mergeable(xs, i)
      ensures var one := MergeOne(xs, j, good);
        if one.failed || !findall then Merges(xs, findall, good) == one
        else Leads(Merges(xs, findall, good), Merges(one.xs, findall, one.spare), true)
    {
      hide MergeOne, Mergeable;
      assert FirstMergeable(xs, 0) == j;
    }

    /** The run of merges, when `merged` tells whether something has been merged already. */
    static ghost predicate Leads(r: MergeRun, w: MergeRun, merged: bool) {
      r == if merged then w.(merged := true) else w
    }

    /** On to the next file to look at; a staging file stepped over has nothing to merge. */
    method Onward(pbf: File, ghost j: nat, dostaging: bool) returns (p: File?, ghost k: nat)
      requires Valid() && j < |list| == |xs| && pbf == list[j] && forall i :: 0 <= i <= j ==> !Mergeable(xs, i)
      ensures j < k <= |list| && p == At(list, k) && forall i :: 0 <= i < k ==> !Mergeable(xs, i)
    {
      hide Linked, Holds, Valid, Tiled;
      NodeFacts(j);
      RealAfterIs(xs, total, j);
      hide RealAfter;
      p, k := pbf.next, j + 1;
      if !dostaging { p, k := pbf.nextReal, RealAfter(xs, j); }
    }

    /** Nothing is left to merge. */
    method Settle()
      requires Valid() && forall i :: 0 <= i < |xs| ==> !Mergeable(xs, i)
      modifies this`needMerge
      ensures Valid() && !needMerge
    {
      hide Linked, Holds, Tiled, Mergeable;
      needMerge := false;
    }

    /** What can be merged into one file, or the first of it. */
    method MergeHere(pbf: File, ghost j: nat, findall: bool, good: nat) returns (merged: bool, failed: bool, spare: nat)
      requires Valid() && j < |list| == |xs| && pbf == list[j] && forall i :: 0 <= i < j ==> !Mergeable(xs, i)
      modifies this`list, this`xs, pbf`data, pbf`next
      ensures Valid() && SameView(old(xs), xs) && (Strict(old(xs)) ==> Strict(xs)) && (merged || failed ==> needMerge)
      ensures j < |list| == |xs| && pbf == list[j] && |list| <= |old(list)| && forall i :: 0 <= i < |list| ==> list[i] in old(list)
      ensures forall i :: 0 <= i < j ==> !Mergeable(xs, i)
      ensures !merged && !failed ==> list == old(list) && xs == old(xs)
      ensures !findall && merged ==> |list| == |old(list)| - 1 && needMerge && !failed
      ensures if failed || (merged && !findall) then Merges(old(xs), findall, good) == MergeRun(xs, merged, failed, spare)
        else !Mergeable(xs, j) && Leads(Merges(old(xs), findall, good), Merges(xs, findall, spare), merged)
    {
      hide RealAfter, Linked, Holds, Valid, View, Tiled, Chained, MergesKnown, Strict, Merges;
      merged, failed, spare := false, false, good;
      NodeFacts(j);
      if j + 1 < |list| { NodeFacts(j + 1); }
      while !pbf.staging && pbf.next != null && pbf.next.staging && |pbf.data| < pbf.length &&
            pbf.offset + |pbf.data| >= pbf.next.offset
        invariant Valid() && SameView(old(xs), xs) && (Strict(old(xs)) ==> Strict(xs)) && (merged ==> needMerge)
        invariant |list| == |xs| && j < |list| && pbf == list[j] && pbf.Value() == xs[j]
        invariant pbf.next == At(list, j + 1) && (j + 1 < |list| ==> list[j + 1].Value() == xs[j + 1])
        invariant |list| <= |old(list)| && forall i :: 0 <= i < |list| ==> list[i] in old(list)
        invariant forall i :: 0 <= i < j ==> !Mergeable(xs, i)
        invariant merged ==> findall
        invariant Leads(Merges(old(xs), findall, good), Merges(xs, findall, spare), merged)
        invariant !merged ==> list == old(list) && xs == old(xs)
        decreases |list|
      {
        failed, spare := MergeAt(pbf, j, findall, spare);
        if failed { return; }
        merged := true;
        if !findall { return; }
      }
    }

    /** MergeNext (findall false), MergeAny (dostaging true) and MergeAll (findall true): merge what can be merged, on a
        disk on which `good` writes go well. `failed` tells that a write failed, which ends the search. */
    method FindAndMerge(findall: bool, dostaging: bool, good: nat) returns (merged: bool, failed: bool)
      requires Valid()
      modifies this`list, this`xs, this`needMerge, list`data, list`next
      ensures Valid() && SameView(old(xs), xs) && (Strict(old(xs)) ==> Strict(xs))
      ensures var r := Merges(old(xs), findall, good); xs == r.xs && merged == r.merged && failed == r.failed
      ensures failed ==> good < StagedPortions(old(xs))
      ensures !failed ==> (merged <==> exists i :: 0 <= i < |old(xs)| && Mergeable(old(xs), i))
      ensures !failed && findall ==> forall i :: 0 <= i < |xs| ==> !Mergeable(xs, i)
      ensures needMerge <==> failed || (merged && !findall)
      ensures |list| <= |old(list)| && forall f :: f in list ==> f in old(list)
      ensures !findall && merged ==> |list| == |old(list)| - 1
      ensures !merged && !failed ==> list == old(list) && xs == old(xs)
    {
      hide RealAfter, Linked, Holds, Valid, View, Tiled, Chained, MergesKnown, Strict, Mergeable, Merges, StagedPortions;
      TiledFacts();
      MergesRight(xs, total, findall, good);
      var pbf := head;
      ghost var j := 0;
      var spare := good;
      merged, failed := false, false;
      while pbf != null
        invariant Valid() && SameView(old(xs), xs) && (Strict(old(xs)) ==> Strict(xs))
        invariant |list| == |xs| && j <= |list| && pbf == At(list, j)
        invariant |list| <= |old(list)| && forall i :: 0 <= i < |list| ==> list[i] in old(list)
        invariant forall i :: 0 <= i < j ==> !Mergeable(xs, i)
        invariant !failed && (merged ==> findall)
        invariant Leads(Merges(old(xs), findall, good), Merges(xs, findall, spare), merged)
        invariant !merged ==> list == old(list) && xs == old(xs)
        decreases |list| - j
      {
        var m;
        m, failed, spare := MergeHere(pbf, j, findall, spare);
        merged := merged || m;
        if failed || (merged && !findall) { return; }
        pbf, j := Onward(pbf, j, dostaging);
      }
      NoMore(xs, findall, spare);
      Settle();
    }

    lemma NoMore(xs: seq<Ext>, findall: bool, good: nat)
      requires forall i :: 0 <= i < |xs| ==> !Mergeable(xs, i)
      ensures Merges(xs, findall, good) == MergeRun(xs, false, false, good)
    {
      hide Mergeable;
    }
  }
}
