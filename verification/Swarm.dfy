/** All peers and the queue of pending requests: every run keeps each peer's counter exact (peer.cpp, peerlist.cpp). */
module Swarms {
  import opened Sequences
  import opened QueueSlices
  import opened SliceGrid
  import opened RequestQueues
  import opened QueueBounds
  import opened PeerEvents
  import opened Peers
  import opened SwarmScenes

  class Swarm {
    const geo: Geometry
    const pending: RequestQueue
    var peers: seq<Peer>
    ghost var Repr: set<object>

    /** Peer `i` counts its requests exactly, unless its counter has been reset. */
    ghost predicate Member(i: nat)
      requires i < |peers|
      reads this, Repr
    {
      && peers[i] in Repr && peers[i].queue in Repr && peers[i].queue.Inside(Repr)
      && peers[i].queue.geo == geo && peers[i].Valid()
    }

    /** The queues share nothing. */
    ghost predicate Separate()
      reads this, Repr
    {
      && Distinct(peers)
      && (forall i :: 0 <= i < |peers| ==> peers[i] in Repr && peers[i].queue in Repr) && pending in Repr
      && (forall i :: 0 <= i < |peers| ==> peers[i].queue.Apart(pending))
      && (forall i, j :: 0 <= i < |peers| && 0 <= j < |peers| && i != j ==> peers[i].queue.Apart(peers[j].queue))
    }

    ghost predicate Valid()
      reads this, Repr
    {
      && Sized(geo) && this !in Repr && pending in Repr && pending.Inside(Repr) && Ready(pending, geo)
      && (forall i :: 0 <= i < |peers| ==> Member(i))
      && Separate()
    }

    ghost function Now(): (scene: Scene)
      reads this`peers, peers, set k | 0 <= k < |peers| :: peers[k].queue, pending`lists
      ensures |scene.peers| == |peers| && scene.pending == pending.lists
      ensures forall k :: 0 <= k < |peers| ==> scene.peers[k] == peers[k].Mine()
    {
      var ps := peers;
      var mine := seq(|ps|, k requires 0 <= k < |ps| reads ps, set j | 0 <= j < |ps| :: ps[j].queue => ps[k].Mine());
      Scene(mine, pending.lists)
    }

    constructor (geo: Geometry)
      requires Sized(geo)
      ensures Valid() && AllCalm() && fresh(Repr) && peers == [] && Now() == Scene([], [])
    {
      this.geo := geo;
      var q := new RequestQueue(geo, true);
      pending, peers, Repr := q, [], {q};
    }

    /** A new peer is listed. */
    method Connect() returns (p: Peer)
      requires Valid()
      modifies this
      ensures Valid() && fresh(Repr - old(Repr)) && peers == old(peers) + [p]
      ensures fresh(p) && fresh(p.queue) && p.Mine() == NEWCOMER && p.queue.order == []
    {
      hide Sized, Peer.Valid, Ready, RequestQueue.Valid, RequestQueue.Linked, Neat;
      p := new Peer(geo);
      ghost var before := peers;
      forall k | 0 <= k < |before|
        ensures before[k] != p && before[k].queue.Apart(p.queue) && p.queue.Apart(before[k].queue)
        ensures before[k] in Repr && before[k].queue in Repr && before[k].queue.Inside(Repr)
        ensures before[k].Valid() && before[k].queue.geo == geo
      {
        assert Member(k);
      }
      peers, Repr := peers + [p], Repr + {p, p.queue};
      forall k | 0 <= k < |before| ensures Member(k) {
        assert peers[k] == before[k];
      }
    }

    /** A peer connects. */
    method Join()
      requires Valid()
      modifies this
      ensures Valid() && fresh(Repr - old(Repr)) && |peers| == |old(peers)| + 1 && (old(AllCalm()) ==> AllCalm())
      ensures Leads(pending, Joined, old(Now()), Now())
    {
      hide Valid, Happened;
      var p := Connect();
    }

    /** Queue `q` holds only what peer `i` or the queue of pending requests held, or what is new. */
    twostate predicate Mixed(q: RequestQueue, i: nat)
      requires i < |old(peers)|
      reads q`pieces, q`order
    {
      && (forall j :: 0 <= j < |q.pieces| ==>
        q.pieces[j] in old(peers[i].queue.pieces) || q.pieces[j] in old(pending.pieces) || fresh(q.pieces[j]))
      && (forall j :: 0 <= j < |q.order| ==>
        q.order[j] in old(peers[i].queue.order) || q.order[j] in old(pending.order) || fresh(q.order[j]))
    }

    /** What peer `i` and the queue of pending requests did among themselves concerns no other peer. */
    twostate lemma Kept(i: nat)
      requires old(Valid()) && peers == old(peers) && i < |peers|
      requires peers[i].Valid() && Ready(pending, geo) && peers[i].queue.Apart(pending)
      requires Mixed(peers[i].queue, i) && Mixed(pending, i)
      requires forall k :: 0 <= k < |peers| && k != i ==> Untouched(peers[k])
      requires old(Repr) <= Repr && this !in Repr && peers[i].queue.Inside(Repr) && pending.Inside(Repr)
      ensures Valid()
    {
      hide Peer.Valid, Ready, Sized;
      assert old(Member(i));
      forall k | 0 <= k < |peers| && k != i
        ensures Member(k) && peers[k].queue.Apart(pending)
        ensures peers[k].queue.Apart(peers[i].queue) && peers[i].queue.Apart(peers[k].queue)
      {
        assert old(Member(k));
        assert old(peers[k].queue.Apart(peers[i].queue)) && old(peers[k].queue.Apart(pending));
      }
    }

    twostate predicate Untouched(p: Peer)
      reads p, p.queue, p.queue.pieces, p.queue.order
    {
      && p.Valid() && p.Mine() == old(p.Mine())
      && p.queue.pieces == old(p.queue.pieces) && p.queue.order == old(p.queue.order)
      && (old(p.Calm()) ==> p.Calm())
    }

    /** No counter has ever been reset, and no request on its way will make one so. */
    ghost predicate AllCalm()
      reads this, peers, set k | 0 <= k < |peers| :: peers[k].queue
    {
      forall k :: 0 <= k < |peers| ==> peers[k].Calm()
    }

    /** Queue `q` shares nothing with that of peer `i`, nor with the queue of pending requests. */
    ghost predicate Aside(q: RequestQueue, i: nat)
      requires i < |peers|
      reads this, q, pending, peers[i].queue
    {
      && q != peers[i].queue && q != pending
      && (forall j :: 0 <= j < |q.pieces| ==> q.pieces[j] !in peers[i].queue.pieces && q.pieces[j] !in pending.pieces)
      && (forall j :: 0 <= j < |q.order| ==> q.order[j] !in peers[i].queue.order && q.order[j] !in pending.order)
    }

    lemma Parts(i: nat)
      requires Valid() && i < |peers|
      ensures this !in Repr && peers[i] in Repr && peers[i].queue.Inside(Repr) && pending.Inside(Repr)
      ensures peers[i].Valid() && Ready(pending, geo) && peers[i].queue.geo == geo
      ensures peers[i].queue != pending && peers[i].queue.Apart(pending)
      ensures forall j :: 0 <= j < |pending.pieces| ==> pending.pieces[j] !in peers[i].queue.pieces
      ensures forall j :: 0 <= j < |pending.order| ==> pending.order[j] !in peers[i].queue.order
      ensures forall k :: 0 <= k < |peers| && k != i ==>
        && peers[k] != peers[i] && peers[k].Valid() && Aside(peers[k].queue, i)
        && peers[k].queue.Valid() && Neat(geo, peers[k].queue.lists)
    {
      assert Member(i);
      forall k | 0 <= k < |peers| && k != i
        ensures peers[k] != peers[i] && peers[k].Valid() && Aside(peers[k].queue, i)
        ensures peers[k].queue.Valid() && Neat(geo, peers[k].queue.lists)
      {
        assert Member(k);
        assert peers[k].queue.Apart(peers[i].queue) && peers[k].queue.Apart(pending);
      }
    }

    /** What queue `q` is made of. */
    ghost function Nodes(q: RequestQueue): set<object>
      reads q`pieces, q`order
    {
      (set o: object | o in q.pieces) + (set o: object | o in q.order)
    }

    /** Something happens to peer `i`, and to no other. */
    method Act(i: nat, e: Event, messages: nat) returns (ghost last: Moment, ghost trail: seq<Moment>)
      requires Valid() && i < |peers|
      modifies Repr
      ensures Safe(geo) && old(peers[i].Calm()) && Usual(geo, e) ==> peers[i].Calm()
      ensures peers[i].Valid() && Ready(pending, geo) && peers[i].queue.Apart(pending)
      ensures Mixed(peers[i].queue, i) && Mixed(pending, i) && fresh(Nodes(peers[i].queue) + Nodes(pending) - Repr)
      ensures forall k :: 0 <= k < |peers| && k != i ==> Untouched(peers[k])
      ensures Leads(pending, Turned(i, e, messages, last, trail), old(Now()), Now())
    {
      hide Valid, Peer.Valid, Peer.Calm, Ready, Sized, Safe, Usual, RequestQueue.Valid, Neat, Happened, Leads;
      Parts(i);
      var ps := peers;
      var donors := seq(|ps| - 1, k requires 0 <= k < |ps| - 1 => if k < i then ps[k].queue else ps[k + 1].queue);
      forall k | 0 <= k < |donors| ensures peers[i].Donor(donors[k], pending) {
        assert Aside(peers[if k < i then k else k + 1].queue, i);
      }
      ghost var others := Others(Now().peers, i);
      assert Peer.Lists(donors) == others;
      last, trail := peers[i].Handle(e, messages, pending, donors);
      forall k | 0 <= k < |peers| && k != i ensures Untouched(peers[k]) {
        assert old(Aside(peers[k].queue, i));
      }
      TurnedLeads(pending, Turned(i, e, messages, last, trail), old(Now()), Now());
    }

    lemma Within(q: RequestQueue)
      requires q in Repr && Nodes(q) <= Repr
      ensures q.Inside(Repr)
    {
      forall p | p in q.pieces ensures p in Repr {
        assert p in Nodes(q);
      }
      forall s | s in q.order ensures s in Repr {
        assert s in Nodes(q);
      }
    }

    /** Something happens to peer `i`, and the queues still share nothing. */
    method Move(i: nat, e: Event, messages: nat) returns (ghost h: Happening)
      requires Valid() && i < |peers|
      modifies this`Repr, Repr
      ensures Valid() && fresh(Repr - old(Repr)) && peers == old(peers)
      ensures Safe(geo) && old(peers[i].Calm()) && Usual(geo, e) ==> peers[i].Calm()
      ensures forall k :: 0 <= k < |peers| && k != i ==> Untouched(peers[k])
      ensures Is(h, i, e) && h.messages == messages && Leads(pending, h, old(Now()), Now())
    {
      hide Valid, Peer.Valid, Peer.Calm, Ready, Sized, Safe, Usual, RequestQueue.Apart, RequestQueue.Valid, Happened;
      hide Leads, Neat;
      hide Aside, Untouched, Nodes, Mixed, Now, RequestQueue.Inside;
      Parts(i);
      ghost var last, trail;
      last, trail := Act(i, e, messages);
      h := Turned(i, e, messages, last, trail);
      ghost var q := peers[i].queue;
      Repr := Repr + Nodes(q) + Nodes(pending);
      Within(q);
      Within(pending);
      Kept(i);
    }

    /** Something happens to peer `i`. */
    method Turn(i: nat, e: Event, messages: nat) returns (ghost h: Happening)
      requires Valid() && i < |peers|
      modifies this`Repr, Repr
      ensures Valid() && fresh(Repr - old(Repr)) && peers == old(peers)
      ensures Safe(geo) && old(AllCalm()) && Usual(geo, e) ==> AllCalm()
      ensures Is(h, i, e) && h.messages == messages && Leads(pending, h, old(Now()), Now())
    {
      hide Valid, Peer.Calm, Peer.Valid, Safe, Usual, Leads;
      h := Move(i, e, messages);
    }

    lemma PendingParts()
      requires Valid()
      ensures this !in Repr && pending.Inside(Repr) && Ready(pending, geo) && pending.Valid()
      ensures forall k :: 0 <= k < |peers| ==>
        peers[k].Valid() && peers[k].queue != pending && peers[k].queue.Apart(pending)
      ensures forall k, j :: 0 <= k < |peers| && 0 <= j < |peers[k].queue.pieces| ==>
        peers[k].queue.pieces[j] !in pending.pieces
      ensures forall k, j :: 0 <= k < |peers| && 0 <= j < |peers[k].queue.order| ==>
        peers[k].queue.order[j] !in pending.order
    {
      forall k | 0 <= k < |peers| ensures peers[k].Valid() {
        assert Member(k);
      }
    }

    twostate lemma KeptAll()
      requires old(Valid()) && peers == old(peers) && Repr == old(Repr) && Ready(pending, geo) && pending.Within()
      requires forall k :: 0 <= k < |peers| ==> Untouched(peers[k])
      ensures Valid()
    {
      hide Peer.Valid, Ready, Sized;
      forall k | 0 <= k < |peers| ensures Member(k) && peers[k].queue.Apart(pending) {
        assert old(Member(k)) && old(peers[k].queue.Apart(pending));
      }
      forall k, j | 0 <= k < |peers| && 0 <= j < |peers| && k != j ensures peers[k].queue.Apart(peers[j].queue) {
        assert old(peers[k].queue.Apart(peers[j].queue));
        assert Untouched(peers[k]) && Untouched(peers[j]);
      }
    }

    /** A slice has been received: nobody need ask for it any more. */
    method ForgetPendingSlice(idx: nat, off: nat, len: nat)
      requires Valid()
      modifies Repr
      ensures Valid() && peers == old(peers) && Repr == old(Repr) && (old(AllCalm()) ==> AllCalm())
      ensures Leads(pending, SliceGone(idx, off, len), old(Now()), Now())
    {
      hide Valid, Peer.Valid, Peer.Calm, Ready, Sized, Holds, Less, RequestQueue.Valid, RequestQueue.Apart, Neat;
      hide Happened;
      PendingParts();
      var removed := ForgetSlice(pending, geo, idx, off, len);
      assert forall k :: 0 <= k < |peers| ==> Untouched(peers[k]);
      KeptAll();
    }

    method ForgetPendingPiece(idx: nat)
      requires Valid()
      modifies Repr
      ensures Valid() && peers == old(peers) && Repr == old(Repr) && (old(AllCalm()) ==> AllCalm())
      ensures Leads(pending, PieceGone(idx), old(Now()), Now())
    {
      hide Valid, Peer.Valid, Peer.Calm, Ready, Sized, Find, RequestQueue.Valid, RequestQueue.Apart, Neat, Happened;
      PendingParts();
      var removed := ForgetPiece(pending, geo, idx);
      assert forall k :: 0 <= k < |peers| ==> Untouched(peers[k]);
      KeptAll();
    }

    /** The same happens to every peer. */
    method Everybody(e: Event) returns (ghost stage: Stage)
      requires Valid() && Usual(geo, e)
      modifies this`Repr, Repr
      ensures Valid() && fresh(Repr - old(Repr)) && peers == old(peers)
      ensures Safe(geo) && old(AllCalm()) ==> AllCalm()
      ensures Staged(pending, stage, old(Now()), Now()) && |stage.log| == |peers|
      ensures forall k :: 0 <= k < |peers| ==> Is(stage.log[k], k, e)
    {
      hide Valid, AllCalm, Safe, Usual, Leads;
      stage := Stage([], [Now()]);
      var i := 0;
      while i < |peers|
        invariant Valid() && fresh(Repr - old(Repr)) && peers == old(peers)
        invariant Safe(geo) && old(AllCalm()) ==> AllCalm()
        invariant Staged(pending, stage, old(Now()), Now()) && |stage.log| == i <= |peers|
        invariant forall k :: 0 <= k < i ==> Is(stage.log[k], k, e)
      {
        var messages: nat := *;
        ghost var before := Now();
        ghost var h := Turn(i, e, messages);
        StagedMore(pending, stage, old(Now()), before, h, Now());
        stage := More(stage, h, Now());
        i := i + 1;
      }
    }

    /** A slice has been received: nobody is to be asked for it any more. */
    method ReceivedSlice(idx: nat, off: nat, len: nat) returns (ghost stage: Stage)
      requires Valid()
      modifies this`Repr, Repr
      ensures Valid() && fresh(Repr - old(Repr)) && (Safe(geo) && old(AllCalm()) ==> AllCalm())
      ensures Staged(pending, stage, old(Now()), Now()) && Played(HasSlice(idx, off, len), |old(peers)|, stage.log)
      ensures UnwantedSlice(Now(), idx, off, len)
    {
      hide Valid, AllCalm, Safe, Leads, Holds, Sound;
      ghost var start := Now();
      AllSound();
      stage := Everybody(DropSlice(idx, off, len));
      ghost var before := Now();
      AllToldSlice(pending, idx, off, len, stage, start, before, |peers|);
      AllSound();
      ForgetPendingSlice(idx, off, len);
      SliceGoneThen(pending, idx, off, len, before, Now());
      StagedMore(pending, stage, start, before, SliceGone(idx, off, len), Now());
      stage := More(stage, SliceGone(idx, off, len), Now());
    }

    /** The same for a piece. */
    method ReceivedPiece(idx: nat) returns (ghost stage: Stage)
      requires Valid()
      modifies this`Repr, Repr
      ensures Valid() && fresh(Repr - old(Repr)) && (Safe(geo) && old(AllCalm()) ==> AllCalm())
      ensures Staged(pending, stage, old(Now()), Now()) && Played(HasPiece(idx), |old(peers)|, stage.log)
      ensures Unwanted(Now(), idx)
    {
      hide Valid, AllCalm, Safe, Leads, Has, Sound;
      ghost var start := Now();
      AllSound();
      stage := Everybody(DropPiece(idx));
      ghost var before := Now();
      AllToldPiece(pending, idx, stage, start, before, |peers|);
      AllSound();
      ForgetPendingPiece(idx);
      PieceGoneThen(pending, idx, before, Now());
      StagedMore(pending, stage, start, before, PieceGone(idx), Now());
      stage := More(stage, PieceGone(idx), Now());
    }

    lemma AllSound()
      requires Valid()
      ensures Sound(geo, pending.lists) && pending.geo == geo
      ensures forall k :: 0 <= k < |peers| ==> Sound(geo, peers[k].queue.lists)
    {
      hide Sized, RequestQueue.Linked, RequestQueue.Apart;
      forall k | 0 <= k < |peers| ensures Sound(geo, peers[k].queue.lists) {
        assert Member(k);
        peers[k].queue.LinkedNow();
      }
      pending.LinkedNow();
    }

    /** A step of the swarm. What has been received is not to be asked for by anybody any more. */
    method Do(step: Step) returns (ghost stage: Stage)
      requires Valid()
      modifies this, Repr
      ensures Valid() && fresh(Repr - old(Repr))
      ensures Safe(geo) && old(AllCalm()) && (step.One? ==> Usual(geo, step.e)) ==> AllCalm()
      ensures Staged(pending, stage, old(Now()), Now()) && Fits(step, stage, old(Now()), Now())
    {
      hide Valid, AllCalm, Safe, Leads, Unwanted, UnwantedSlice;
      ghost var start := Now();
      stage := Stage([], [start]);
      match step {
        case Joins =>
          Join();
          StagedMore(pending, stage, start, start, Joined, Now());
          stage := More(stage, Joined, Now());
        case One(i, e, messages) =>
          if i < |peers| {
            ghost var h := Turn(i, e, messages);
            StagedMore(pending, stage, start, start, h, Now());
            stage := More(stage, h, Now());
          }
        case HasSlice(idx, off, len) =>
          stage := ReceivedSlice(idx, off, len);
        case HasPiece(idx) =>
          stage := ReceivedPiece(idx);
        case Abandon(i, j, idx, plan) =>
          if i < |peers| && j < |peers| && i != j {
            stage := GiveOver(i, j, idx, plan);
          }
      }
    }

    /** Peer `i` takes over a piece from peer `j`, which loses it, and asks for it. */
    method GiveOver(i: nat, j: nat, idx: nat, plan: seq<Choice>) returns (ghost stage: Stage)
      requires Valid() && i < |peers| && j < |peers| && i != j
      modifies this`Repr, Repr
      ensures Valid() && fresh(Repr - old(Repr)) && (Safe(geo) && old(AllCalm()) ==> AllCalm())
      ensures Staged(pending, stage, old(Now()), Now()) && Played(Abandon(i, j, idx, plan), |old(peers)|, stage.log)
    {
      hide Valid, AllCalm, Safe, Leads;
      ghost var start := Now();
      stage := Stage([], [start]);
      var messages: nat := *;
      ghost var h := Turn(i, TakeOver(if j < i then j else j - 1, idx), messages);
      StagedMore(pending, stage, start, start, h, Now());
      stage := More(stage, h, Now());
      ghost var mid := Now();
      messages := *;
      h := Turn(j, DropPiece(idx), messages);
      StagedMore(pending, stage, start, mid, h, Now());
      stage := More(stage, h, Now());
      mid := Now();
      messages := *;
      var due: bool := *;
      h := Turn(i, Request(plan, due, true), messages);
      StagedMore(pending, stage, start, mid, h, Now());
      stage := More(stage, h, Now());
    }

    /** Every run keeps every counter exact until it is reset, and no queue grows longer than the bound. For safe sizes no
        counter is ever reset, if what arrives can be saved or no queue grows beyond the limit. From scene to scene
        happens what the steps say. */
    method Run(steps: seq<Step>) returns (ghost stages: seq<Stage>, ghost scenes: seq<Scene>)
      requires Valid()
      modifies this, Repr
      ensures Valid() && fresh(Repr - old(Repr))
      ensures forall i :: 0 <= i < |peers| ==>
        && (peers[i].reset || peers[i].reqOut == SentCount(peers[i].queue.order))
        && |peers[i].queue.order| <= Peak(geo)
      ensures Safe(geo) && old(AllCalm()) && (forall k :: 0 <= k < |steps| && steps[k].One? ==> Usual(geo, steps[k].e)) ==>
        AllCalm() && forall i :: 0 <= i < |peers| ==> peers[i].reqOut == SentCount(peers[i].queue.order)
      ensures |stages| == |steps| && |scenes| == |steps| + 1 && scenes[0] == old(Now()) && scenes[|steps|] == Now()
      ensures forall k :: 0 <= k < |steps| ==>
        Staged(pending, stages[k], scenes[k], scenes[k + 1]) && Fits(steps[k], stages[k], scenes[k], scenes[k + 1])
    {
      hide AllCalm, Safe, Usual, Staged, Fits;
      stages, scenes := [], [Now()];
      for k := 0 to |steps|
        invariant Valid() && fresh(Repr - old(Repr))
        invariant Safe(geo) && old(AllCalm()) && (forall j :: 0 <= j < k && steps[j].One? ==> Usual(geo, steps[j].e)) ==> AllCalm()
        invariant |stages| == k && |scenes| == k + 1 && scenes[0] == old(Now()) && scenes[k] == Now()
        invariant forall j :: 0 <= j < k ==>
          Staged(pending, stages[j], scenes[j], scenes[j + 1]) && Fits(steps[j], stages[j], scenes[j], scenes[j + 1])
      {
        ghost var stage := Do(steps[k]);
        stages, scenes := stages + [stage], scenes + [Now()];
      }
      forall i | 0 <= i < |peers|
        ensures !peers[i].reset ==> peers[i].reqOut == SentCount(peers[i].queue.order)
        ensures |peers[i].queue.order| <= Peak(geo) && (AllCalm() ==> !peers[i].reset)
      {
        assert Member(i);
        peers[i].Exactly();
        CalmNow(i);
      }
    }

    lemma CalmNow(i: nat)
      requires i < |peers|
      ensures AllCalm() ==> !peers[i].reset
    {
    }
  }
}
