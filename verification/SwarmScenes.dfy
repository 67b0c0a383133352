/** What happens in the swarm (peerlist.cpp), in terms of what all peers have queued and what is pending. */
module SwarmScenes {
  import opened Sequences
  import opened QueueSlices
  import opened SliceGrid
  import opened RequestQueues
  import opened PeerEvents

  /** What happens to the swarm: a peer connects, something happens to one peer, a slice or a piece has been received,
      or peer `i` takes over a piece from peer `j`. */
  datatype Step =
    | Joins
    | One(i: nat, e: Event, messages: nat)
    | HasSlice(idx: nat, off: nat, len: nat)
    | HasPiece(idx: nat)
    | Abandon(i: nat, j: nat, idx: nat, plan: seq<Choice>)

  /** What all peers have queued and counted, and what is pending. */
  datatype Scene = Scene(peers: seq<Account>, pending: seq<seq<Slice>>)

  /** What happens at once. Something happens to peer `i` by way of the moments in `trail`, and at `last` its requests are
      given up if the connection fails. */
  datatype Happening =
    | Joined
    | Turned(i: nat, e: Event, messages: nat, last: Moment, trail: seq<Moment>)
    | SliceGone(idx: nat, off: nat, len: nat)
    | PieceGone(idx: nat)

  /** What happens one after the other, and the scenes before, between and after. */
  datatype Stage = Stage(log: seq<Happening>, scenes: seq<Scene>)

  /** What the peers but the one at `i` have queued. */
  ghost function Others(peers: seq<Account>, i: nat): seq<seq<seq<Slice>>>
    requires i < |peers|
  {
    seq(|peers| - 1, k requires 0 <= k < |peers| - 1 => if k < i then peers[k].lists else peers[k + 1].lists)
  }

  /** What happens leads from one scene to the other; `q` is the queue of pending requests. */
  ghost predicate Leads(q: RequestQueue, h: Happening, s: Scene, t: Scene) {
    match h
    case Joined =>
      t == Scene(s.peers + [NEWCOMER], s.pending)
    case Turned(i, e, messages, last, trail) =>
      && i < |s.peers| == |t.peers|
      && (forall k :: 0 <= k < |s.peers| && k != i ==> t.peers[k] == s.peers[k])
      && Happened(q, e, Others(s.peers, i), WithCredit(Moment(s.peers[i], s.pending), messages),
                  Moment(t.peers[i], t.pending), last, trail)
    case SliceGone(idx, off, len) =>
      t == if Holds(s.pending, idx, off, len) then s.(pending := Less(s.pending, idx, off, len)) else s
    case PieceGone(idx) =>
      t == if Has(s.pending, idx) then s.(pending := Without(s.pending, Find(s.pending, idx))) else s
  }

  lemma TurnedLeads(q: RequestQueue, h: Happening, s: Scene, t: Scene)
    requires h.Turned? && h.i < |s.peers| == |t.peers|
    requires forall k :: 0 <= k < |s.peers| && k != h.i ==> t.peers[k] == s.peers[k]
    requires Happened(q, h.e, Others(s.peers, h.i), WithCredit(Moment(s.peers[h.i], s.pending), h.messages),
                      Moment(t.peers[h.i], t.pending), h.last, h.trail)
    ensures Leads(q, h, s, t)
  {
    hide Happened;
  }

  ghost predicate Staged(q: RequestQueue, stage: Stage, s: Scene, t: Scene) {
    && |stage.scenes| == |stage.log| + 1 && stage.scenes[0] == s && stage.scenes[|stage.log|] == t
    && forall j :: 0 <= j < |stage.log| ==> Leads(q, stage.log[j], stage.scenes[j], stage.scenes[j + 1])
  }

  function More(stage: Stage, h: Happening, t: Scene): Stage {
    Stage(stage.log + [h], stage.scenes + [t])
  }

  lemma StagedMore(q: RequestQueue, stage: Stage, s: Scene, t: Scene, h: Happening, u: Scene)
    requires Staged(q, stage, s, t) && Leads(q, h, t, u)
    ensures Staged(q, More(stage, h, u), s, u)
  {
    hide Leads;
  }

  ghost predicate Is(h: Happening, i: nat, e: Event) {
    h.Turned? && h.i == i && h.e == e
  }

  /** What happens is what the step says; there were `count` peers. */
  ghost predicate Played(step: Step, count: nat, log: seq<Happening>) {
    match step
    case Joins => log == [Joined]
    case One(i, e, messages) =>
      if i < count then |log| == 1 && Is(log[0], i, e) && log[0].messages == messages else log == []
    case HasSlice(idx, off, len) =>
      && |log| == count + 1 && log[count] == SliceGone(idx, off, len)
      && forall k :: 0 <= k < count ==> Is(log[k], k, DropSlice(idx, off, len))
    case HasPiece(idx) =>
      && |log| == count + 1 && log[count] == PieceGone(idx)
      && forall k :: 0 <= k < count ==> Is(log[k], k, DropPiece(idx))
    case Abandon(i, j, idx, plan) =>
      if i < count && j < count && i != j then
        && |log| == 3 && Is(log[0], i, TakeOver(if j < i then j else j - 1, idx)) && Is(log[1], j, DropPiece(idx))
        && log[2].Turned? && log[2].i == i && log[2].e.Request? && log[2].e.plan == plan && log[2].e.wanted
      else log == []
  }

  /** Nobody asks for piece `idx`, and it is not pending. */
  ghost predicate Unwanted(scene: Scene, idx: nat) {
    !Has(scene.pending, idx) && forall k :: 0 <= k < |scene.peers| ==> !Has(scene.peers[k].lists, idx)
  }

  ghost predicate UnwantedSlice(scene: Scene, idx: nat, off: nat, len: nat) {
    && !Holds(scene.pending, idx, off, len)
    && forall k :: 0 <= k < |scene.peers| ==> !Holds(scene.peers[k].lists, idx, off, len)
  }

  /** What happens is what the step says, and nobody asks any more for what has been received. */
  ghost predicate Fits(step: Step, stage: Stage, s: Scene, t: Scene) {
    && Played(step, |s.peers|, stage.log)
    && (step.HasPiece? ==> Unwanted(t, step.idx))
    && (step.HasSlice? ==> UnwantedSlice(t, step.idx, step.off, step.len))
  }

  /** No piece is queued twice, and no slice. */
  ghost predicate Sound(geo: Geometry, lists: seq<seq<Slice>>) {
    Shape(lists) && Neat(geo, lists)
  }

  lemma PieceGoneNow(lists: seq<seq<Slice>>, idx: nat)
    requires Shape(lists) && Has(lists, idx)
    ensures !Has(Without(lists, Find(lists, idx)), idx)
  {
    var i := Find(lists, idx);
    var rest: seq<seq<Slice>> := Without(lists, i);
    FindIs(lists, i);
    forall j | 0 <= j < |rest| ensures rest[j] != [] && rest[j][0].index != idx {
      FindIs(lists, if j < i then j else j + 1);
    }
  }

  lemma SliceGoneNow(geo: Geometry, lists: seq<seq<Slice>>, idx: nat, off: nat, len: nat)
    requires Sound(geo, lists) && Holds(lists, idx, off, len)
    ensures !Holds(Less(lists, idx, off, len), idx, off, len)
  {
    var i := Find(lists, idx);
    var k := FindIn(lists[i], off, len);
    var rest := Less(lists, idx, off, len);
    FindIs(lists, i);
    if |lists[i]| == 1 {
      PieceGoneNow(lists, idx);
    } else {
      assert rest[i][0] in lists[i] by {
        assert rest[i][0] == lists[i][if k == 0 then 1 else 0];
      }
      assert forall j :: 0 <= j < i ==> rest[j] == lists[j];
      assert Find(rest, idx) == i;
      forall j | 0 <= j < |rest[i]| ensures !Matches(rest[i][j], off, len) {
        var m := if j < k then j else j + 1;
        assert rest[i][j] == lists[i][m];
        assert if m < k then lists[i][m].offset != lists[i][k].offset else lists[i][k].offset != lists[i][m].offset;
      }
    }
  }

  /** Who has been told that a piece has been received does not ask for it any more. */
  lemma ToldPiece(q: RequestQueue, idx: nat, h: Happening, s: Scene, t: Scene)
    requires Leads(q, h, s, t) && h.Turned? && h.e == DropPiece(idx) && h.i < |s.peers| && Sound(q.geo, s.peers[h.i].lists)
    ensures h.i < |t.peers| && !Has(t.peers[h.i].lists, idx)
  {
    hide Find, Shape, Start;
    var lists := s.peers[h.i].lists;
    NoneHas(idx);
    if Has(lists, idx) {
      PieceGoneNow(lists, idx);
    }
  }

  lemma ToldSlice(q: RequestQueue, idx: nat, off: nat, len: nat, h: Happening, s: Scene, t: Scene)
    requires Leads(q, h, s, t) && h.Turned? && h.e == DropSlice(idx, off, len) && h.i < |s.peers|
    requires Sound(q.geo, s.peers[h.i].lists)
    ensures h.i < |t.peers| && !Holds(t.peers[h.i].lists, idx, off, len)
  {
    hide Holds, Less, Sound, Slot;
    var lists := s.peers[h.i].lists;
    NoneHolds(idx, off, len);
    if Holds(lists, idx, off, len) {
      SliceGoneNow(q.geo, lists, idx, off, len);
    }
  }

  lemma NoneHas(idx: nat)
    ensures !Has([], idx)
  {
  }

  lemma NoneHolds(idx: nat, off: nat, len: nat)
    ensures !Holds([], idx, off, len)
  {
  }

  /** Once the first `j` peers have been told so, none of them asks for the piece. */
  lemma {:induction false} AllToldPiece(q: RequestQueue, idx: nat, stage: Stage, s: Scene, t: Scene, j: nat)
    requires Staged(q, stage, s, t) && j <= |stage.log| && j <= |s.peers|
    requires forall k :: 0 <= k < j ==> Is(stage.log[k], k, DropPiece(idx))
    requires forall k :: 0 <= k < |s.peers| ==> Sound(q.geo, s.peers[k].lists)
    ensures |stage.scenes[j].peers| == |s.peers|
    ensures forall k :: 0 <= k < j ==> !Has(stage.scenes[j].peers[k].lists, idx)
    ensures forall k :: j <= k < |s.peers| ==> stage.scenes[j].peers[k] == s.peers[k]
  {
    hide Happened, Sound, Has;
    if j > 0 {
      AllToldPiece(q, idx, stage, s, t, j - 1);
      assert Is(stage.log[j - 1], j - 1, DropPiece(idx)) && Leads(q, stage.log[j - 1], stage.scenes[j - 1], stage.scenes[j]);
      ToldPiece(q, idx, stage.log[j - 1], stage.scenes[j - 1], stage.scenes[j]);
    }
  }

  lemma {:induction false} AllToldSlice(q: RequestQueue, idx: nat, off: nat, len: nat, stage: Stage, s: Scene, t: Scene,
                                        j: nat)
    requires Staged(q, stage, s, t) && j <= |stage.log| && j <= |s.peers|
    requires forall k :: 0 <= k < j ==> Is(stage.log[k], k, DropSlice(idx, off, len))
    requires forall k :: 0 <= k < |s.peers| ==> Sound(q.geo, s.peers[k].lists)
    ensures |stage.scenes[j].peers| == |s.peers|
    ensures forall k :: 0 <= k < j ==> !Holds(stage.scenes[j].peers[k].lists, idx, off, len)
    ensures forall k :: j <= k < |s.peers| ==> stage.scenes[j].peers[k] == s.peers[k]
  {
    hide Happened, Sound, Holds;
    if j > 0 {
      AllToldSlice(q, idx, off, len, stage, s, t, j - 1);
      assert Is(stage.log[j - 1], j - 1, DropSlice(idx, off, len));
      assert Leads(q, stage.log[j - 1], stage.scenes[j - 1], stage.scenes[j]);
      ToldSlice(q, idx, off, len, stage.log[j - 1], stage.scenes[j - 1], stage.scenes[j]);
    }
  }

  /** Then it is forgotten, and so it is not pending either. */
  lemma PieceGoneThen(q: RequestQueue, idx: nat, s: Scene, t: Scene)
    requires Leads(q, PieceGone(idx), s, t) && Sound(q.geo, s.pending)
    requires forall k :: 0 <= k < |s.peers| ==> !Has(s.peers[k].lists, idx)
    ensures Unwanted(t, idx)
  {
    hide Find;
    if Has(s.pending, idx) {
      PieceGoneNow(s.pending, idx);
    }
  }

  lemma SliceGoneThen(q: RequestQueue, idx: nat, off: nat, len: nat, s: Scene, t: Scene)
    requires Leads(q, SliceGone(idx, off, len), s, t) && Sound(q.geo, s.pending)
    requires forall k :: 0 <= k < |s.peers| ==> !Holds(s.peers[k].lists, idx, off, len)
    ensures UnwantedSlice(t, idx, off, len)
  {
    hide Holds, Less;
    if Holds(s.pending, idx, off, len) {
      SliceGoneNow(q.geo, s.pending, idx, off, len);
    }
  }
}
