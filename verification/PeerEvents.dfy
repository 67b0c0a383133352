/** What can happen to the requests of a peer, and what becomes of them (peer.cpp), in terms of what is queued, sent and
    counted before and after. */
module PeerEvents {
  import opened Sequences
  import opened QueueSlices
  import opened SliceGrid
  import opened RequestQueues
  import opened QueueBounds

  /** What a peer is asked for when there is room: a piece that is pending, if there is one among those wanted, compared
      with what others have been asked for or not; otherwise what another peer has of a piece, a piece that nobody has
      been asked for, or nothing. */
  datatype Choice = Choice(wanted: set<nat>, compare: bool, other: Other)

  datatype Other = Nothing | Copied(d: nat, idx: nat) | New(idx: nat) | Declined(wanted: bool, retry: bool)

  /** What can happen to the requests that a peer has been sent. */
  datatype Event =
    | Request(plan: seq<Choice>, due: bool, wanted: bool)
    | Arrive(idx: nat, off: nat, len: nat, accept: bool, saved: bool, target: Count)
    | TakeOver(d: nat, idx: nat)
    | DropSlice(idx: nat, off: nat, len: nat)
    | DropPiece(idx: nat)
    | Interesting
    | Uninteresting
    | Unresponsive
    | Choke
    | Unchoke
    | Awake

  /** What arrives can be saved, or no queue grows beyond the limit. */
  ghost predicate Usual(geo: Geometry, e: Event) {
    e.Arrive? && !e.saved ==> Peak(geo) <= MaxReqQueueLength(geo)
  }

  /** What a peer has queued, how much of it has been sent, and what is noted about it: how many requests are outstanding
      and should be, three states, whether the counter has ever been reset, and how many more messages go out. */
  datatype Account = Account(lists: seq<seq<Slice>>, n: nat, out: nat, target: nat, standby: bool, interested: bool,
                             choked: bool, reset: bool, credit: nat)

  /** That, and the pieces that no peer is asked for. */
  datatype Moment = Moment(mine: Account, pending: seq<seq<Slice>>)

  /** So many more messages go out. */
  function WithCredit(a: Moment, messages: nat): Moment {
    a.(mine := a.mine.(credit := messages))
  }

  /** A peer to which nothing has happened. */
  const NEWCOMER: Account := Account([], 0, 0, 5, false, false, true, false, 0)

  /** The check for an underflow. */
  ghost function Checked(geo: Geometry, a: Account): Account {
    if a.out > MaxReqQueueLength(geo) then a.(out := 0, reset := true) else a
  }

  /** How many requests a batch is to have. */
  ghost function Portion(a: Account): nat {
    if a.out < a.target && a.n < |Flat(a.lists)| then Min(5, Min(a.target - a.out, |Flat(a.lists)| - a.n)) else 0
  }

  /** As many of them have been sent as the connection lets through. */
  ghost function Batched(a: Account): Account {
    var k := Min(Portion(a), a.credit);
    a.(n := a.n + k, out := a.out + k, credit := a.credit - k)
  }

  /** Cancel messages for `k` requests have gone out. The check comes after each. */
  ghost function Cancelled(geo: Geometry, a: Account, k: nat): (r: Account)
    requires k <= a.credit
    ensures r == a.(out := r.out, reset := r.reset, credit := a.credit - k)
  {
    if k == 0 then a
    else
      var before := Cancelled(geo, a, k - 1);
      Checked(geo, before.(out := Wrap(before.out - 1), credit := before.credit - 1))
  }

  ghost predicate Filled(lists: seq<seq<Slice>>) {
    forall j :: 0 <= j < |lists| ==> lists[j] != []
  }

  /** All requests go to the queue `q` of pending ones. */
  ghost predicate GivenAll(q: RequestQueue, a: Moment, b: Moment) {
    && Filled(a.mine.lists) && Filled(a.pending) && b.pending == q.Given(q, a.pending, a.mine.lists)
    && b.mine == a.mine.(lists := [], n := 0, out := 0)
  }

  /** The slice is queued and has been sent. */
  ghost predicate AskedFor(a: Account, idx: nat, off: nat, len: nat) {
    Holds(a.lists, idx, off, len) && Slot(a.lists, idx, off, len) < a.n
  }

  /** `after` is `rest` and one more slice at the end of its piece. */
  ghost predicate Regained(rest: seq<seq<Slice>>, idx: nat, off: nat, len: nat, after: seq<seq<Slice>>) {
    var i := Find(after, idx);
    && i < |after|
    && var s := after[i][|after[i]| - 1];
       s.index == idx && Matches(s, off, len) && after == Added(rest, s)
  }

  /** A slice arrives: what was asked for leaves the queue if it is saved, and is asked for again if not. */
  ghost predicate Arrives(idx: nat, off: nat, len: nat, accept: bool, saved: bool, target: nat, a: Account, b: Account) {
    var asked := AskedFor(a, idx, off, len);
    if Holds(a.lists, idx, off, len) && saved && (asked || accept) then
      var rest := Less(a.lists, idx, off, len);
      if asked then
        b == a.(lists := rest, n := a.n - 1, out := Wrap(a.out - 1), target := target, standby := a.standby && rest != [])
      else
        b == a.(lists := rest)
    else if asked && !saved then
      var rest := Less(a.lists, idx, off, len);
      && Regained(rest, idx, off, len, b.lists)
      && if Place(rest, idx) < a.n then b == a.(lists := b.lists, target := target)
         else b == a.(lists := b.lists, n := a.n - 1, out := Wrap(a.out - 1), target := target)
    else
      b == a
  }

  /** No reset has been made but of a count that was too high already. */
  ghost predicate Counted(geo: Geometry, a: Account, b: Account) {
    (a.reset ==> b.reset) && (b.reset ==> a.reset || a.out > MaxReqQueueLength(geo))
  }

  /** A slice is no longer to be asked for: false if that cannot be said. */
  ghost predicate SliceDropped(geo: Geometry, idx: nat, off: nat, len: nat, a: Account, b: Account, ok: bool) {
    var asked := AskedFor(a, idx, off, len);
    if asked && a.credit == 0 then
      !ok && b == a
    else if Holds(a.lists, idx, off, len) then
      var rest := Less(a.lists, idx, off, len);
      var c := if asked then Cancelled(geo, a, 1).(n := a.n - 1) else a;
      ok && b == c.(lists := rest, standby := a.standby && rest != [])
    else
      ok && b == a
  }

  /** A piece is no longer to be asked for: false if not all of what has been sent of it can be cancelled. */
  ghost predicate PieceDropped(geo: Geometry, idx: nat, a: Account, b: Account, ok: bool) {
    var i := Find(a.lists, idx);
    if i < |a.lists| then
      var x, y := Start(a.lists, i), Start(a.lists, i + 1);
      var sent := SentIn(a.n, x, y);
      var rest := Without(a.lists, i);
      if a.credit < sent then
        !ok && b == Cancelled(geo, a, a.credit)
      else
        ok && b == Cancelled(geo, a, sent).(lists := rest, n := Cut(a.n, x, y), standby := a.standby && rest != [])
    else
      ok && b == a
  }

  /** The peer is told that it has something to offer. */
  ghost predicate InterestGained(a: Account, b: Account, ok: bool) {
    var c := a.(standby := false, interested := true);
    if a.interested then ok && b == c
    else ok == (a.credit > 0) && b == c.(credit := if ok then c.credit - 1 else 0)
  }

  /** The peer is told that it has nothing to offer: if anything is queued, all that has been sent is cancelled first,
      and the queue is emptied. */
  ghost predicate Deserted(geo: Geometry, a: Account, b: Account, ok: bool) {
    var c := a.(interested := false);
    if !a.interested then ok && b == a
    else if a.credit < a.n then !ok && b == Cancelled(geo, c, c.credit)
    else
      var left := a.credit - a.n;
      ok == (left > 0) && b == Cancelled(geo, c, c.n).(lists := [], n := 0, credit := if ok then left - 1 else 0)
  }

  /** What is left of a piece, in which the first slice goes behind the others whenever the next of the other queues has
      the same slice of the piece in front. */
  ghost function Compared(list: seq<Slice>, idx: nat, others: seq<seq<seq<Slice>>>): (after: seq<Slice>)
    ensures |after| == |list|
  {
    if others == [] then list
    else
      var last := |others| - 1;
      var now := Compared(list, idx, others[..last]);
      if now != [] && InFront(others[last], idx, now[0]) then Without(now, 0) + [now[0]] else now
  }

  /** Slices of piece `idx` are queued, a slice like `s` in front. */
  ghost predicate InFront(lists: seq<seq<Slice>>, idx: nat, s: Slice) {
    var i := Find(lists, idx);
    i < |lists| && Matches(lists[i][0], s.offset, s.length)
  }

  /** Requests for the same parts of the torrent, in whatever order. */
  ghost predicate Alike(a: seq<Slice>, b: seq<Slice>) {
    && |a| == |b|
    && (forall k :: 0 <= k < |a| ==> OneLike(b, a[k]))
    && (forall k :: 0 <= k < |b| ==> OneLike(a, b[k]))
  }

  ghost predicate OneLike(list: seq<Slice>, s: Slice) {
    exists k :: 0 <= k < |list| && list[k].index == s.index && Matches(list[k], s.offset, s.length)
  }

  /** A piece is queued behind what was queued, and nothing else changes. */
  ghost predicate Gains(a: Account, b: Account) {
    && |b.lists| == |a.lists| + 1 && b.lists[..|a.lists|] == a.lists
    && b == a.(lists := b.lists)
  }

  /** A piece that another peer has queued is taken over by a peer that has nothing queued. */
  ghost predicate Overtaken(geo: Geometry, d: nat, idx: nat, others: seq<seq<seq<Slice>>>, a: Account, b: Account) {
    if a.lists != [] || d >= |others| then
      b == a
    else if WholeSlices(geo) == 0 then
      b == a.(target := a.out)
    else if Has(others[d], idx) then
      Gains(a, b) && SameSlices(b.lists[0], Compared(others[d][Find(others[d], idx)], idx, others))
    else
      b == a
  }

  /** What comes of a choice, whether a piece has been queued, and whether the connection still stands. */
  ghost predicate Chosen(geo: Geometry, choice: Choice, others: seq<seq<seq<Slice>>>, a: Moment, b: Moment,
                         queued: bool, ok: bool) {
    var i := FindCommon(a.pending, choice.wanted, a.mine.lists);
    if |Flat(a.mine.lists)| >= WholeSlices(geo) then
      !queued && ok && b == a.(mine := a.mine.(target := a.mine.out))
    else if i < |a.pending| then
      var list := a.pending[i];
      var taken := if choice.compare then Compared(list, list[0].index, others) else list;
      queued && ok && b == Moment(a.mine.(lists := a.mine.lists + [taken]), Without(a.pending, i))
    else
      b.pending == a.pending && ChosenOther(geo, choice.other, others, a.mine, b.mine, queued, ok)
  }

  ghost predicate ChosenOther(geo: Geometry, other: Other, others: seq<seq<seq<Slice>>>, a: Account, b: Account,
                              queued: bool, ok: bool) {
    match other
    case Nothing =>
      !queued && ok && b == a
    case Copied(d, idx) =>
      if d < |others| && Has(others[d], idx) && !Has(a.lists, idx) then
        queued && ok && Gains(a, b) && Alike(b.lists[|a.lists|], others[d][Find(others[d], idx)])
      else
        !queued && ok && b == a
    case New(idx) =>
      if idx < geo.PieceCount() && !Has(a.lists, idx) then
        queued && ok && Gains(a, b) && geo.Tiles(idx, b.lists[|a.lists|])
      else
        !queued && ok && b == a
    case Declined(wanted, retry) =>
      !queued && if wanted then ok && b == a.(standby := a.standby || !retry) else Deserted(geo, a, b, ok)
  }

  /** The moments through which SendRequest goes, and whether the connection stands at the end: a batch is sent, and if
      that was not enough, more is asked for. */
  ghost predicate Sending(geo: Geometry, plan: seq<Choice>, others: seq<seq<seq<Slice>>>, trail: seq<Moment>, ok: bool)
    decreases |trail|, 1
  {
    && |trail| >= 2
    && var c := Checked(geo, trail[0].mine);
       var sent := trail[1].mine;
       && trail[1] == trail[0].(mine := Batched(c))
       && if Portion(c) > c.credit then |trail| == 2 && !ok
          else if sent.out < sent.target && !sent.standby then Asking(geo, plan, others, trail[1..], ok)
          else |trail| == 2 && ok
  }

  /** The moments through which RequestPiece goes: a piece is queued and requested, or there is nothing to be done. */
  ghost predicate Asking(geo: Geometry, plan: seq<Choice>, others: seq<seq<seq<Slice>>>, trail: seq<Moment>, ok: bool)
    decreases |trail|, 0
  {
    && |trail| >= 2
    && (|| (Chosen(geo, Next(plan), others, trail[0], trail[1], false, ok) && |trail| == 2)
        || (Chosen(geo, Next(plan), others, trail[0], trail[1], true, true)
            && Sending(geo, Later(plan), others, trail[1..], ok)))
  }

  function Next(plan: seq<Choice>): Choice {
    if plan == [] then Choice({}, false, Nothing) else plan[0]
  }

  function Later(plan: seq<Choice>): seq<Choice> {
    if plan == [] then [] else plan[1..]
  }

  /** Whether something is to be asked of a peer that answers, and what comes of it. */
  ghost predicate MoreAsked(geo: Geometry, plan: seq<Choice>, due: bool, others: seq<seq<seq<Slice>>>,
                            a: Moment, b: Moment, trail: seq<Moment>, ok: bool) {
    var c := a.(mine := Checked(geo, a.mine));
    if c.mine.lists == [] then
      trail != [] && trail[0] == c && trail[|trail| - 1] == b && Asking(geo, plan, others, trail, ok)
    else if due && c.mine.out < c.mine.target then
      trail != [] && trail[0] == c && trail[|trail| - 1] == b && Sending(geo, plan, others, trail, ok)
    else
      ok && trail == [] && b == c
  }

  /** The peer has been told that it has something to offer. */
  ghost function Told(a: Moment): Moment {
    if a.mine.interested then a
    else
      var left := if a.mine.credit > 0 then a.mine.credit - 1 else 0;
      a.(mine := a.mine.(standby := false, interested := true, credit := left))
  }

  /** What RequestCheck does, by way of the moments in `trail`, and whether the connection still stands. */
  ghost predicate Requested(geo: Geometry, plan: seq<Choice>, due: bool, wanted: bool, others: seq<seq<seq<Slice>>>,
                            a: Moment, b: Moment, trail: seq<Moment>, ok: bool) {
    if !wanted then
      b.pending == a.pending && Deserted(geo, a.mine, b.mine, ok)
    else if !a.mine.interested && a.mine.credit == 0 then
      !ok && b == Told(a)
    else if a.mine.choked then
      ok && b == Told(a)
    else
      MoreAsked(geo, plan, due, others, Told(a), b, trail, ok)
  }

  /** What an event does to a peer's requests and the pending ones, and whether the connection still stands; `others` is
      what the other peers have queued. */
  ghost predicate Done(geo: Geometry, e: Event, others: seq<seq<seq<Slice>>>, a: Moment, b: Moment, trail: seq<Moment>,
                       ok: bool) {
    match e
    case Request(plan, due, wanted) => Requested(geo, plan, due, wanted, others, a, b, trail, ok)
    case TakeOver(d, idx) => ok && b.pending == a.pending && Overtaken(geo, d, idx, others, a.mine, b.mine)
    case _ => b.pending == a.pending && ByItself(geo, e, a.mine, b.mine, ok)
  }

  /** What an event does to them that does not look at what others have queued. */
  ghost predicate ByItself(geo: Geometry, e: Event, a: Account, b: Account, ok: bool) {
    match e
    case Arrive(idx, off, len, accept, saved, target) => ok && Arrives(idx, off, len, accept, saved, target, a, b)
    case DropSlice(idx, off, len) => SliceDropped(geo, idx, off, len, a, b, ok)
    case DropPiece(idx) => PieceDropped(geo, idx, a, b, ok)
    case Interesting => InterestGained(a, b, ok)
    case Uninteresting => Deserted(geo, a, b, ok)
    case Unresponsive => !ok && b == Cancelled(geo, a, Min(a.n, a.credit))
    case Choke => ok == (a.lists == []) && b == a.(choked := true)
    case Unchoke => ok && b == a.(choked := false, standby := false)
    case Awake => ok && b == a.(standby := false)
    case _ => true
  }

  /** What becomes of a peer's requests and the pending ones, which are in queue `q`: when the connection fails, and when
      the peer chokes or does not respond, they are given up, as they are then. */
  ghost predicate Happened(q: RequestQueue, e: Event, others: seq<seq<seq<Slice>>>, a: Moment, b: Moment,
                           last: Moment, trail: seq<Moment>) {
    && (!b.mine.reset ==> b.mine.out == b.mine.n)
    && ((Done(q.geo, e, others, a, last, trail, true) && b == last)
        || (Done(q.geo, e, others, a, last, trail, false) && GivenAll(q, last, b)))
  }

  /** As long as the counter is right, cancelling what has been sent makes it go down by one each time. */
  lemma {:induction false} CancelledRight(geo: Geometry, a: Account, k: nat)
    requires k <= a.credit && (a.reset || a.out == a.n) && k <= a.n && a.out < 0x1_0000_0000
    ensures var r := Cancelled(geo, a, k);
      Counted(geo, a, r) && (r.reset || r.out == a.out - k) && r.out < 0x1_0000_0000
  {
    hide MaxReqQueueLength, Wrap;
    if k > 0 {
      CancelledRight(geo, a, k - 1);
      WrapDown(Cancelled(geo, a, k - 1).out);
    }
  }

  lemma WrapDown(n: nat)
    requires n < 0x1_0000_0000
    ensures Wrap(n - 1) == if n > 0 then n - 1 else 0xFFFF_FFFF
  {
  }

  lemma SentInMost(n: nat, a: nat, b: nat)
    ensures SentIn(n, a, b) <= n
  {
  }

  lemma CancelledNone(geo: Geometry, a: Account)
    ensures Cancelled(geo, a, 0) == a
  {
  }

  /** One more. */
  lemma CancelledOne(geo: Geometry, a: Account, k: nat)
    requires k < a.credit
    ensures Cancelled(geo, Cancelled(geo, a, k), 1) == Cancelled(geo, a, k + 1)
  {
    hide MaxReqQueueLength, Wrap, Checked;
    var b := Cancelled(geo, a, k);
    assert Cancelled(geo, b, 0) == b;
  }

  lemma RestFilled(lists: seq<seq<Slice>>, idx: nat, off: nat, len: nat)
    requires Filled(lists) && Holds(lists, idx, off, len)
    ensures Filled(Less(lists, idx, off, len))
  {
    hide Find, FindIn;
  }

  lemma RegainedBy(rest: seq<seq<Slice>>, s: Slice)
    requires Filled(rest)
    ensures Regained(rest, s.index, s.offset, s.length, Added(rest, s))
  {
    hide Find;
    var i, after := Find(rest, s.index), Added(rest, s);
    assert after[i] == (if i < |rest| then rest[i] else []) + [s];
    assert forall j :: 0 <= j < i ==> after[j] == rest[j];
    assert Find(after, s.index) == i;
  }

  /** What Compared does depends on the slices' places only. */
  lemma {:induction false} ComparedSame(a: seq<Slice>, b: seq<Slice>, idx: nat, others: seq<seq<seq<Slice>>>)
    requires SameSlices(a, b)
    ensures SameSlices(Compared(a, idx, others), Compared(b, idx, others))
  {
    if others != [] {
      ComparedSame(a, b, idx, others[..|others| - 1]);
    }
  }

  lemma ComparedNone(list: seq<Slice>, idx: nat)
    ensures Compared(list, idx, []) == list
  {
  }

  /** One step more of Compared. */
  lemma ComparedNext(list: seq<Slice>, idx: nat, others: seq<seq<seq<Slice>>>, k: nat)
    requires k < |others|
    ensures var now := Compared(list, idx, others[..k]);
      Compared(list, idx, others[..k + 1]) ==
        if now != [] && InFront(others[k], idx, now[0]) then Without(now, 0) + [now[0]] else now
  {
    assert others[..k + 1][..k] == others[..k];
  }

  /** What is copied, in any order or in the same, and then compared. */
  lemma ComparedCopy(list: seq<Slice>, theirs: seq<Slice>, idx: nat, others: seq<seq<seq<Slice>>>)
    requires Alike(list, theirs)
    ensures Alike(Compared(list, idx, others), theirs)
    ensures SameSlices(list, theirs) ==> SameSlices(Compared(list, idx, others), Compared(theirs, idx, others))
  {
    ComparedElements(list, idx, others);
    AlikeOrder(list, theirs, Compared(list, idx, others));
    if SameSlices(list, theirs) {
      ComparedSame(list, theirs, idx, others);
    }
  }

  lemma AlikeSame(a: seq<Slice>, b: seq<Slice>)
    requires SameSlices(a, b)
    ensures Alike(a, b)
  {
    forall k | 0 <= k < |a| ensures OneLike(b, a[k]) && OneLike(a, b[k]) {
      assert b[k].index == a[k].index;
    }
  }

  /** The order does not matter. */
  lemma AlikeOrder(a: seq<Slice>, b: seq<Slice>, c: seq<Slice>)
    requires Alike(a, b) && SameElements(a, c) && |a| == |c|
    ensures Alike(c, b)
  {
    forall k | 0 <= k < |c| ensures OneLike(b, c[k]) {
      assert c[k] in a;
    }
    forall k | 0 <= k < |b| ensures OneLike(c, b[k]) {
      assert OneLike(a, b[k]);
      var j :| 0 <= j < |a| && a[j].index == b[k].index && Matches(a[j], b[k].offset, b[k].length);
      assert a[j] in c;
    }
  }

  lemma {:induction false} ComparedElements(list: seq<Slice>, idx: nat, others: seq<seq<seq<Slice>>>)
    ensures SameElements(list, Compared(list, idx, others))
  {
    if others != [] {
      var now := Compared(list, idx, others[..|others| - 1]);
      ComparedElements(list, idx, others[..|others| - 1]);
      if now != [] {
        assert now == [now[0]] + Without(now, 0);
      }
    }
  }

  lemma HasStill(lists: seq<seq<Slice>>, more: seq<seq<Slice>>, idx: nat)
    requires lists <= more && Has(lists, idx)
    ensures Has(more, idx)
  {
    hide Find;
    var i := Find(lists, idx);
    assert more[i] == lists[i];
  }

  /** Nothing is lost when requests are given up: what was pending stays so, and each piece is pending afterwards unless it
      still has all its slices. */
  lemma {:induction false} GivenKeeps(q: RequestQueue, held: seq<seq<Slice>>, from: seq<seq<Slice>>)
    requires Filled(held) && Filled(from)
    ensures held <= q.Given(q, held, from)
    ensures forall j :: 0 <= j < |from| ==> q.Dropped(q, from[j]) || Has(q.Given(q, held, from), from[j][0].index)
    decreases |from|
  {
    if from != [] {
      hide RequestQueue.Dropped, Find;
      var idx := from[0][0].index;
      var now := if q.Dropped(q, from[0]) || Find(held, idx) < |held| then held else held + [from[0]];
      GivenKeeps(q, now, from[1..]);
      if !q.Dropped(q, from[0]) {
        if Find(held, idx) == |held| {
          assert now[|held|] == from[0];
        }
        HasStill(now, q.Given(q, held, from), idx);
      }
      forall j | 1 <= j < |from| ensures q.Dropped(q, from[j]) || Has(q.Given(q, held, from), from[j][0].index) {
        assert from[j] == from[1..][j - 1];
      }
    }
  }

  /** Nothing that was queued is lost or moved, and nothing that was sent is taken back, unless the queue is emptied because
      the peer has nothing to offer. */
  ghost predicate Kept(a: Account, b: Account) {
    (a.lists <= b.lists && a.n <= b.n) || (b.lists == [] && b.n == 0 && !b.interested)
  }

  lemma {:induction false} SendingKeeps(geo: Geometry, plan: seq<Choice>, others: seq<seq<seq<Slice>>>, trail: seq<Moment>,
                                        ok: bool)
    requires Sending(geo, plan, others, trail, ok)
    ensures Kept(trail[0].mine, trail[|trail| - 1].mine)
    decreases |trail|, 1
  {
    hide Asking, Portion;
    if |trail| > 2 {
      AskingKeeps(geo, plan, others, trail[1..], ok);
    }
  }

  /** Asking for more leaves alone what has been asked for. */
  lemma {:induction false} AskingKeeps(geo: Geometry, plan: seq<Choice>, others: seq<seq<seq<Slice>>>, trail: seq<Moment>,
                                       ok: bool)
    requires Asking(geo, plan, others, trail, ok)
    ensures Kept(trail[0].mine, trail[|trail| - 1].mine)
    decreases |trail|, 0
  {
    hide Sending, Flat, Find, FindCommon, Compared, Alike, Geometry.Tiles;
    if |trail| > 2 {
      assert Chosen(geo, Next(plan), others, trail[0], trail[1], true, true);
      ChosenGains(geo, Next(plan), others, trail[0], trail[1]);
      SendingKeeps(geo, Later(plan), others, trail[1..], ok);
    }
  }

  lemma ChosenGains(geo: Geometry, choice: Choice, others: seq<seq<seq<Slice>>>, a: Moment, b: Moment)
    requires Chosen(geo, choice, others, a, b, true, true)
    ensures a.mine.lists <= b.mine.lists && |b.mine.lists| == |a.mine.lists| + 1 && a.mine.n == b.mine.n
  {
    hide Flat, Find, FindCommon, Compared, Alike, Geometry.Tiles;
  }
}
