/** How long a request queue is meant to be and how long it can become (peer.h, peer.cpp), and the sizes there can be
    (btconfig.cpp). */
module QueueBounds {
  import opened Pieces
  import opened QueueSlices
  import opened SliceGrid

  const MIN_SLICE_SIZE: pos := 1024
  const MAX_SLICE_SIZE: pos := 0x2_0000
  const DEFAULT_SLICE_SIZE: pos := 16384

  /** What a 32-bit counter can say. */
  type Count = x: nat | x < 0x1_0000_0000

  /** Arithmetic on 32-bit counters. */
  function Wrap(x: int): nat {
    x % 0x1_0000_0000
  }

  function Min(a: nat, b: nat): nat {
    if a < b then a else b
  }

  /** Whole slices to a piece. */
  function WholeSlices(geo: Geometry): nat {
    geo.pieceLength / geo.sliceSize
  }

  function ReqQueueLength(geo: Geometry): nat {
    Wrap(WholeSlices(geo) * 2 - 1)
  }

  function MaxReqQueueLength(geo: Geometry): nat {
    Wrap(geo.pieceLength / MIN_SLICE_SIZE * 2 - 1)
  }

  /** The intended length of a queue fits its type, or no slice fits into a piece. */
  ghost predicate Sized(geo: Geometry) {
    WholeSlices(geo) < 0x8000_0000
  }

  /** The two tests for room for another piece in a queue of `qsize` slices, as coded. */
  predicate Room(geo: Geometry, qsize: nat) {
    !(Wrap(ReqQueueLength(geo) - qsize) < WholeSlices(geo) || qsize >= WholeSlices(geo))
  }

  /** The first test finds nothing that the second does not. */
  lemma OneTest(geo: Geometry, qsize: nat)
    requires qsize <= 2 * WholeSlices(geo) && Sized(geo)
    ensures Room(geo, qsize) <==> qsize < WholeSlices(geo)
  {
    var p := WholeSlices(geo);
    assert qsize < p ==> p * 2 - 1 - qsize >= p;
  }

  /** There is room for a piece in an empty queue exactly if a piece is not shorter than a slice. */
  lemma RoomIff(geo: Geometry)
    requires Sized(geo)
    ensures Room(geo, 0) <==> geo.sliceSize <= geo.pieceLength
  {
    OneTest(geo, 0);
    DivRange(geo.pieceLength, WholeSlices(geo), geo.sliceSize);
    if WholeSlices(geo) > 0 {
      MulMonotone(geo.sliceSize, 1, WholeSlices(geo));
    }
  }

  /** The slices of the first `k` pieces. */
  function SlicesTo(geo: Geometry, k: nat): nat {
    if k == 0 then 0 else SlicesTo(geo, k - 1) + geo.NSlices(k - 1)
  }

  function AllSlices(geo: Geometry): nat {
    SlicesTo(geo, geo.PieceCount())
  }

  /** The most slices that a request queue ever holds: a piece more than just leaves room for it, or the whole torrent. */
  function Peak(geo: Geometry): nat {
    if WholeSlices(geo) == 0 then 0 else Min(geo.NSlices(0) + WholeSlices(geo) - 1, AllSlices(geo))
  }

  /** The slices of the pieces in `s` among the first `k`. */
  ghost function SlicesOf(geo: Geometry, s: set<nat>, k: nat): nat {
    if k == 0 then 0 else SlicesOf(geo, s, k - 1) + if k - 1 in s then geo.NSlices(k - 1) else 0
  }

  lemma {:induction false} SlicesWithout(geo: Geometry, s: set<nat>, idx: nat, k: nat)
    requires idx in s
    ensures SlicesOf(geo, s, k) == SlicesOf(geo, s - {idx}, k) + if idx < k then geo.NSlices(idx) else 0
  {
    if k > 0 {
      SlicesWithout(geo, s, idx, k - 1);
    }
  }

  lemma {:induction false} SlicesMost(geo: Geometry, s: set<nat>, k: nat)
    ensures SlicesOf(geo, s, k) <= SlicesTo(geo, k)
  {
    if k > 0 {
      SlicesMost(geo, s, k - 1);
    }
  }

  /** A queue of some pieces holds no more than their slices. */
  lemma {:induction false} FlatWithin(geo: Geometry, lists: seq<seq<Slice>>, s: set<nat>)
    requires Shape(lists) && Neat(geo, lists) && forall i :: 0 <= i < |lists| ==> lists[i][0].index in s
    ensures |Flat(lists)| <= SlicesOf(geo, s, geo.PieceCount())
  {
    if lists != [] {
      var first, rest := lists[0], lists[1..];
      var idx := first[0].index;
      assert forall i :: 0 <= i < |rest| ==> rest[i] == lists[i + 1];
      FlatWithin(geo, rest, s - {idx});
      SlicesWithout(geo, s, idx, geo.PieceCount());
      OnGrid(geo, first);
      FindIs(lists, 0);
      TidyCount(geo, first, idx);
    }
  }

  lemma OnGrid(geo: Geometry, list: seq<Slice>)
    requires geo.Tidy(list) && list != []
    ensures list[0].index < geo.PieceCount()
  {
    hide PieceLen, NPieces;
    assert list[0] in list;
  }

  ghost function Indices(lists: seq<seq<Slice>>): set<nat> {
    set i | 0 <= i < |lists| && lists[i] != [] :: lists[i][0].index
  }

  lemma QueueWithin(geo: Geometry, lists: seq<seq<Slice>>)
    requires Shape(lists) && Neat(geo, lists)
    ensures |Flat(lists)| <= AllSlices(geo)
  {
    FlatWithin(geo, lists, Indices(lists));
    SlicesMost(geo, Indices(lists), geo.PieceCount());
  }

  /** No piece has more slices than the first. */
  lemma FirstMost(geo: Geometry, idx: nat)
    requires idx < geo.PieceCount()
    ensures geo.NSlices(idx) <= geo.NSlices(0)
    ensures geo.NSlices(0) <= WholeSlices(geo) + if geo.pieceLength % geo.sliceSize == 0 then 0 else 1
  {
    NSlicesMost(geo, 0);
    NSlicesMost(geo, idx);
    if idx > 0 {
      NPiecesCases(geo.total, geo.pieceLength);
      assert geo.Length(0) == geo.pieceLength;
    }
  }

  /** Another piece may be queued as long as less than a whole piece's slices are. */
  lemma PeakGrown(geo: Geometry, base: seq<seq<Slice>>, list: seq<Slice>)
    requires |Flat(base)| < WholeSlices(geo) && Shape(base + [list]) && Neat(geo, base + [list])
    ensures |Flat(base)| + |list| <= Peak(geo)
    ensures |list| <= geo.NSlices(0)
  {
    hide Flat, Geometry.NSlices, Geometry.Tidy;
    var lists := base + [list];
    QueueWithin(geo, lists);
    FlatAppend(base, list);
    assert lists[|base|] == list;
    FindIs(lists, |base|);
    OnGrid(geo, list);
    TidyCount(geo, list, list[0].index);
    FirstMost(geo, list[0].index);
  }

  lemma PeakMost(geo: Geometry)
    ensures Peak(geo) <= 2 * WholeSlices(geo)
    ensures Peak(geo) == 2 * WholeSlices(geo) <==>
      WholeSlices(geo) == 0 || (geo.NSlices(0) == WholeSlices(geo) + 1 && AllSlices(geo) >= 2 * WholeSlices(geo))
  {
    hide Geometry.NSlices;
    if geo.PieceCount() > 0 {
      FirstMost(geo, 0);
    }
  }

  /** The sizes for which no count is ever taken for an underflow: no queue becomes that long, or only by one slice, and
      then the limit is so high that the five requests that are sent at a time do not reach it. */
  ghost predicate Safe(geo: Geometry) {
    || Peak(geo) <= MaxReqQueueLength(geo)
    || (Peak(geo) == MaxReqQueueLength(geo) + 1 && WholeSlices(geo) + 4 <= MaxReqQueueLength(geo))
  }

  /** ValCfgReqSliceSize, and the range that Config checks before it. */
  predicate SizeAccepted(value: nat) {
    && MIN_SLICE_SIZE <= value <= MAX_SLICE_SIZE
    && value % 1024 == 0 && value <= MIN_SLICE_SIZE
  }

  /** Config::Set for the slice size. */
  function SetSliceSize(current: nat, value: nat): nat {
    var useval := if value > MAX_SLICE_SIZE then MAX_SLICE_SIZE else if value < MIN_SLICE_SIZE then MIN_SLICE_SIZE else value;
    if useval != current && SizeAccepted(value) then useval else current
  }

  /** The slice size after some settings, and after a torrent with pieces of that length has been loaded. */
  function SliceSizeFor(settings: seq<nat>, pieceLength: pos): nat {
    var size := SetAll(settings);
    if pieceLength < size then SetSliceSize(size, pieceLength) else size
  }

  function SetAll(settings: seq<nat>): nat {
    if settings == [] then DEFAULT_SLICE_SIZE
    else SetSliceSize(SetAll(settings[..|settings| - 1]), settings[|settings| - 1])
  }

  /** The sizes that there can be: lengths of 32 bits, and a slice size that some settings lead to. */
  ghost predicate Configured(geo: Geometry) {
    geo.pieceLength < 0x1_0000_0000 && exists settings :: SliceSizeFor(settings, geo.pieceLength) == geo.sliceSize
  }

  lemma {:induction false} SetAllSizes(settings: seq<nat>)
    ensures SetAll(settings) in {1024, DEFAULT_SLICE_SIZE}
  {
    if settings != [] {
      SetAllSizes(settings[..|settings| - 1]);
    }
  }

  /** Only two sizes can be had, and loading a torrent makes the slices no longer than the pieces only if pieces are of
      the least size. */
  lemma ConfiguredIff(geo: Geometry)
    ensures Configured(geo) <==>
      && geo.pieceLength < 0x1_0000_0000
      && (geo.sliceSize == MIN_SLICE_SIZE || (geo.sliceSize == DEFAULT_SLICE_SIZE && geo.pieceLength != MIN_SLICE_SIZE))
  {
    if settings :| SliceSizeFor(settings, geo.pieceLength) == geo.sliceSize {
      SetAllSizes(settings);
    }
    var few: seq<nat> := [1024];
    assert SetAll(few[..0]) == DEFAULT_SLICE_SIZE;
    assert SliceSizeFor(few, geo.pieceLength) == 1024;
    var none: seq<nat> := [];
    assert geo.pieceLength != MIN_SLICE_SIZE ==> SliceSizeFor(none, geo.pieceLength) == DEFAULT_SLICE_SIZE;
  }

  /** Pieces of 8192 bytes keep the slices of 16384, and so there is no room for a piece in an empty queue. */
  lemma NothingFits(total: nat)
    ensures Configured(Geometry(total, 8192, 16384)) && !Room(Geometry(total, 8192, 16384), 0)
  {
    ConfiguredIff(Geometry(total, 8192, 16384));
    RoomIff(Geometry(total, 8192, 16384));
  }

  /** A queue can outgrow its intended length exactly if the first piece has a slice more than go into a piece whole, and
      the torrent has at least twice as many as do. */
  lemma LongIff(geo: Geometry)
    requires Sized(geo)
    ensures Peak(geo) > ReqQueueLength(geo) <==>
      0 < WholeSlices(geo) && geo.NSlices(0) == WholeSlices(geo) + 1 && AllSlices(geo) >= 2 * WholeSlices(geo)
  {
    PeakMost(geo);
  }

  /** For sizes that there can be, a count can be taken for an underflow only with slices of the least size, at most four
      of which go into a piece whole, under the same conditions. */
  lemma UnsafeIff(geo: Geometry)
    requires Configured(geo)
    ensures !Safe(geo) <==>
      && geo.sliceSize == MIN_SLICE_SIZE && 1 <= WholeSlices(geo) <= 4
      && geo.NSlices(0) == WholeSlices(geo) + 1 && AllSlices(geo) >= 2 * WholeSlices(geo)
    ensures !Safe(geo) ==> MaxReqQueueLength(geo) == 2 * WholeSlices(geo) - 1 && Peak(geo) == 2 * WholeSlices(geo)
    ensures Sized(geo)
  {
    ConfiguredIff(geo);
    PeakMost(geo);
    hide Geometry.NSlices;
    var p, q := WholeSlices(geo), geo.pieceLength / MIN_SLICE_SIZE;
    DivRange(geo.pieceLength, q, MIN_SLICE_SIZE);
    DivRange(geo.pieceLength, p, geo.sliceSize);
  }

  /** Two pieces of 1500 bytes, in slices of 1024. */
  lemma UnsafeSizes()
    ensures var geo := Geometry(3000, 1500, 1024);
      Configured(geo) && !Safe(geo) && MaxReqQueueLength(geo) == 1 && geo.NSlices(0) == 2
  {
    var geo := Geometry(3000, 1500, 1024);
    ConfiguredIff(geo);
    assert geo.PieceCount() == 2 && geo.Length(0) == geo.Length(1) == 1500;
    assert SlicesTo(geo, 2) == SlicesTo(geo, 1) + 2 && SlicesTo(geo, 1) == SlicesTo(geo, 0) + 2;
  }
}
