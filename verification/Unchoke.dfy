/** Which peers may download: the best by what they have given, and one more by turns (peerlist.cpp). */
module Unchoking {
  import opened Pieces
  import opened Sequences

  datatype Env = Env(seeding: bool, pieces: nat, pieceLength: pos)

  /** What has gone from the peer and to it, how fast it comes now, and how many pieces the peer has. */
  datatype Stats = Stats(dl: nat, ul: nat, rate: nat, has: nat)

  function Abs(x: int): nat {
    if x < 0 then -x else x
  }

  /** What share of what the peer has given it has been given. */
  function Ratio(s: Stats): real {
    if s.dl == 0 then 0.0 else s.ul as real / s.dl as real
  }

  /** How many pieces the peer should have, by what it says and by what it has been given. */
  function Amount(s: Stats, env: Env): nat {
    if s.ul / env.pieceLength > s.has then s.ul / env.pieceLength else s.has
  }

  /** A rank; the earlier numbers count more. */
  datatype Rank = Rank(giving: int, rate: int, thrift: real, distance: int, amount: int)

  predicate NotAbove(a: Rank, b: Rank) {
    if a.giving != b.giving then a.giving < b.giving
    else if a.rate != b.rate then a.rate < b.rate
    else if a.thrift != b.thrift then a.thrift < b.thrift
    else if a.distance != b.distance then a.distance < b.distance
    else a.amount <= b.amount
  }

  /**
   * Peers that have given something come first, by their speed, unless there is nothing more to get: then those that
   * have given more than they were given come first. Then it counts how little they were given for it, and then how
   * far they are from having half of the pieces.
   */
  function RankOf(s: Stats, env: Env): Rank {
    var gives := if env.seeding then s.dl > s.ul else s.dl > 0;
    Rank(
      if gives then 1 else 0,
      if gives && !env.seeding then s.rate else 0,
      if gives then -Ratio(s) else 0.0,
      Abs(Amount(s, env) - env.pieces / 2),
      Amount(s, env))
  }

  /** The first is not worse than the second. */
  predicate AtLeast(a: Stats, b: Stats, env: Env) {
    NotAbove(RankOf(b, env), RankOf(a, env))
  }

  lemma Total(a: Stats, b: Stats, env: Env)
    ensures AtLeast(a, b, env) || AtLeast(b, a, env)
  {
    hide RankOf;
  }

  lemma Transitive(a: Stats, b: Stats, c: Stats, env: Env)
    requires AtLeast(a, b, env) && AtLeast(b, c, env)
    ensures AtLeast(a, c, env)
  {
    hide RankOf;
  }

  /** As long as there is something to get, peers that have given something come first, the faster of them before the
      others, and at the same speed those that were given a smaller share of what they have given. */
  lemma Downloading(a: Stats, b: Stats, env: Env)
    requires !env.seeding
    ensures a.dl > 0 && b.dl == 0 ==> AtLeast(a, b, env) && !AtLeast(b, a, env)
    ensures a.dl > 0 && b.dl > 0 && a.rate > b.rate ==> AtLeast(a, b, env) && !AtLeast(b, a, env)
    ensures a.dl > 0 && b.dl > 0 && a.rate == b.rate && a.ul * b.dl < b.ul * a.dl ==> AtLeast(a, b, env) && !AtLeast(b, a, env)
  {
    RatioOrder(a, b);
    hide Ratio, Amount;
  }

  /** When there is nothing more to get, those that have given more than they were given come first, and among them
      those that were given a smaller share of it. */
  lemma Seeding(a: Stats, b: Stats, env: Env)
    requires env.seeding
    ensures a.dl > a.ul && b.dl <= b.ul ==> AtLeast(a, b, env) && !AtLeast(b, a, env)
    ensures a.dl > a.ul && b.dl > b.ul && a.ul * b.dl < b.ul * a.dl ==> AtLeast(a, b, env) && !AtLeast(b, a, env)
  {
    RatioOrder(a, b);
    hide Ratio, Amount;
  }

  /** When that makes no difference, the one comes first that is farther from having half of the pieces, or as far and
      has more; what a peer has been given counts as had. */
  lemma ByPieces(a: Stats, b: Stats, env: Env)
    requires if env.seeding then (a.dl > a.ul <==> b.dl > b.ul) else (a.dl > 0 <==> b.dl > 0)
    requires !env.seeding && a.dl > 0 ==> a.rate == b.rate
    requires a.dl > 0 && b.dl > 0 && (env.seeding ==> a.dl > a.ul) ==> a.ul * b.dl == b.ul * a.dl
    ensures var half := env.pieces / 2;
      var x := if a.ul / env.pieceLength > a.has then a.ul / env.pieceLength else a.has;
      var y := if b.ul / env.pieceLength > b.has then b.ul / env.pieceLength else b.has;
      var dx, dy := if x < half then half - x else x - half, if y < half then half - y else y - half;
      AtLeast(a, b, env) <==> dx > dy || (dx == dy && x >= y)
  {
    RatioOrder(a, b);
    hide Ratio;
  }

  /** Ratios compare as the products across do. */
  lemma RatioOrder(a: Stats, b: Stats)
    ensures a.dl > 0 && b.dl > 0 ==>
      (Ratio(a) < Ratio(b) <==> a.ul * b.dl < b.ul * a.dl) && (Ratio(a) == Ratio(b) <==> a.ul * b.dl == b.ul * a.dl)
  {
    if a.dl > 0 && b.dl > 0 {
      var x, y := a.dl as real, b.dl as real;
      Across(a.ul as real, x, b.ul as real, y);
      assert (a.ul * b.dl) as real == a.ul as real * y && (b.ul * a.dl) as real == b.ul as real * x;
    }
  }

  lemma Across(p: real, x: real, q: real, y: real)
    requires x > 0.0 && y > 0.0
    ensures (p / x < q / y <==> p * y < q * x) && (p / x == q / y <==> p * y == q * x)
  {
    var u, v := p / x, q / y;
    assert p == u * x && q == v * y;
    assert p * y == u * (x * y) && q * x == v * (x * y);
    Scaled(u, v, x * y);
  }

  lemma Scaled(u: real, v: real, z: real)
    requires z > 0.0
    ensures (u < v <==> u * z < v * z) && (u == v <==> u * z == v * z)
  {
    assert u < v ==> (v - u) * z > 0.0;
    assert u > v ==> (u - v) * z > 0.0;
  }

  /** Prefers the first if there is nothing between them. If nothing has come, the rate is 0 too. */
  method SelectUnchoke(peer1: Stats, peer2: Stats, env: Env) returns (first: bool)
    ensures first <==> AtLeast(peer1, peer2, env)
  {
    hide Ratio, Amount;
    var half := env.pieces / 2;
    var seeding := env.seeding;
    if !seeding {
      if peer1.dl == 0 {
        if peer2.dl > 0 {
          return false;
        }
        seeding := true;
      } else {
        if peer2.dl == 0 {
          return true;
        }
        if peer1.rate > peer2.rate {
          return true;
        }
        if peer2.rate > peer1.rate {
          return false;
        }
      }
    }
    RatioSign(peer1);
    RatioSign(peer2);
    var dcomp1 := if !seeding || peer1.dl > peer1.ul then Ratio(peer1) else -1.0;
    var dcomp2 := if !seeding || peer2.dl > peer2.ul then Ratio(peer2) else -1.0;
    if dcomp1 >= 0.0 && (dcomp2 < 0.0 || dcomp1 < dcomp2) {
      return true;
    }
    if dcomp2 >= 0.0 && (dcomp1 < 0.0 || dcomp2 < dcomp1) {
      return false;
    }
    var comp1, comp2 := Amount(peer1, env), Amount(peer2, env);
    first := !(Abs(comp1 - half) < Abs(comp2 - half) || (Abs(comp1 - half) == Abs(comp2 - half) && comp1 < comp2));
  }

  lemma RatioSign(s: Stats)
    ensures Ratio(s) >= 0.0
  {
  }

  /** Whether a peer has failed and whether it may download, and since when. */
  datatype Look = Look(failed: bool, unchoked: bool, since: int)

  /** The last slot goes from `that` to `x`: who has waited longer, or has had less time, has it, but an empty peer gets it
      from one that is not empty in three cases of four, and keeps it from one in three cases of four. */
  ghost predicate Prefers(x: Stats, looks: Look, that: Stats, seen: Look, bits: nat, env: Env) {
    var empty := x.has == 0 && x.ul < 2 * env.pieceLength;
    var current := that.has == 0 && that.ul < 2 * env.pieceLength;
    var before := if looks.unchoked == seen.unchoked
      then (if looks.unchoked then seen.since < looks.since else looks.since < seen.since)
      else seen.unchoked;
    if empty && !current && bits != 0 then true
    else before && (empty || !current || bits == 0)
  }

  /** A peer, as far as choking goes. */
  class Candidate {
    const stats: Stats
    const wants: bool
    var failed: bool
    var unchoked: bool
    var since: int
    /** How many more messages go out before the connection fails. */
    var credit: nat

    constructor (stats: Stats, wants: bool, credit: nat)
      ensures this.stats == stats && this.wants == wants && !failed && !unchoked && this.credit == credit
    {
      this.stats, this.wants, failed, unchoked, since, this.credit := stats, wants, false, false, 0, credit;
    }

    ghost function Now(): Look
      reads this
    {
      Look(failed, unchoked, since)
    }

    predicate IsEmpty(env: Env) {
      stats.has == 0 && stats.ul < 2 * env.pieceLength
    }

    /** SetLocal, and closing the connection if the message cannot be sent. */
    method SetLocal(unchoke: bool, now: int) returns (r: int)
      modifies this
      ensures unchoked == unchoke && r == if old(unchoked) != unchoke && old(credit) == 0 then -1 else 0
      ensures failed == (old(failed) || r == -1) && since == if old(unchoked) == unchoke then old(since) else now
      ensures credit == if old(unchoked) != unchoke && r == 0 then old(credit) - 1 else old(credit)
    {
      r := 0;
      if unchoked == unchoke {
        return;
      }
      since, unchoked := now, unchoke;
      if credit == 0 {
        failed, r := true, -1;
      } else {
        credit := credit - 1;
      }
    }

    /** By turns: the peer has waited longer, or has had less time. */
    predicate Before(that: Candidate)
      reads this, that
    {
      if unchoked then that.unchoked && that.since < since
      else that.unchoked || since < that.since
    }
  }

  /** The slots are filled from the first on. */
  ghost predicate Packed(s: seq<Candidate?>) {
    forall i, j :: 0 <= i < j < |s| && s[i] == null ==> s[j] == null
  }

  ghost predicate Apart(s: seq<Candidate?>) {
    forall i, j :: 0 <= i < j < |s| && s[i] != null ==> s[i] != s[j]
  }

  ghost predicate Full(s: seq<Candidate?>) {
    forall i :: 0 <= i < |s| ==> s[i] != null
  }

  /** Everybody in the slots is at least as good as `q`. */
  ghost predicate AllAtLeast(s: seq<Candidate?>, q: Candidate, env: Env) {
    forall i :: 0 <= i < |s| ==> s[i] != null && AtLeast(s[i].stats, q.stats, env)
  }

  /** Whoever is not in the slots is not preferred to anybody in them. */
  ghost predicate Best(s: seq<Candidate?>, seen: seq<Candidate>, env: Env) {
    forall i :: 0 <= i < |seen| && seen[i] !in s ==> AllAtLeast(s, seen[i], env)
  }

  /** The slots, the first `k` of which are for the best, after the candidates in `seen`. */
  ghost predicate Chosen(s: seq<Candidate?>, k: nat, seen: seq<Candidate>, env: Env) {
    && k <= |s| && Packed(s) && Apart(s)
    && (forall i :: 0 <= i < |s| && s[i] != null ==> s[i] in seen)
    && Best(s[..k], seen, env)
    && (forall i :: 0 <= i < |seen| && seen[i] !in s ==> Full(s))
  }

  class Round {
    const slots: array<Candidate?>
    const max: nat
    const noOpt: bool
    const env: Env
    const now: int

    constructor (max: nat, noOpt: bool, env: Env, now: int)
      ensures this.max == max && this.noOpt == noOpt && this.env == env && this.now == now && fresh(slots)
      ensures Valid() && slots[..] == seq(max + 1, i => null)
    {
      this.max, this.noOpt, this.env, this.now := max, noOpt, env, now;
      slots := new Candidate?[max + 1](i => null);
    }

    ghost predicate Valid()
      reads this
    {
      slots.Length == max + 1
    }

    /** How many slots are for the best. */
    function Ranked(): nat
      reads this
    {
      if noOpt then max + 1 else max
    }

    predicate Vacant(i: nat)
      requires Valid() && i < slots.Length
      reads this, slots, slots[i]
    {
      slots[i] == null || slots[i].failed
    }

    ghost function Members(): set<Candidate>
      reads slots
    {
      set i | 0 <= i < slots.Length && slots[i] != null :: slots[i]
    }

    /** The first vacant slot for the best from the `i`th on, or how many there are. */
    ghost function FirstVacant(i: nat): (c: nat)
      requires Valid() && i <= Ranked()
      reads this, slots, Members()
      ensures i <= c <= Ranked() && (c < Ranked() ==> Vacant(c)) && forall j :: i <= j < c ==> !Vacant(j)
      decreases Ranked() - i
    {
      if i == Ranked() || Vacant(i) then i else FirstVacant(i + 1)
    }

    /** The first vacant slot, or if there is none the one of the least preferred. */
    method FindSlot() returns (c: nat)
      requires Valid() && Ranked() > 0
      ensures c < Ranked() && (Vacant(c) ==> c == FirstVacant(0))
      ensures !Vacant(c) ==> FirstVacant(0) == Ranked() && forall j :: 0 <= j < Ranked() ==>
        !Vacant(j) && AtLeast(slots[j].stats, slots[c].stats, env)
    {
      hide AtLeast;
      c := 0;
      var i := 0;
      while i < Ranked()
        invariant i <= Ranked() && c < Ranked() && c <= i
        invariant i > 0 ==> c < i && !Vacant(c)
        invariant forall j :: 0 <= j < i ==> !Vacant(j) && AtLeast(slots[j].stats, slots[c].stats, env)
      {
        if Vacant(i) {
          c := i;
          return;
        }
        if c != i {
          var first := SelectUnchoke(slots[i].stats, slots[c].stats, env);
          if !first {
            Total(slots[i].stats, slots[c].stats, env);
            forall j | 0 <= j < i ensures AtLeast(slots[j].stats, slots[i].stats, env) {
              Transitive(slots[j].stats, slots[c].stats, slots[i].stats, env);
            }
            c := i;
          }
        }
        Total(slots[i].stats, slots[i].stats, env);
        i := i + 1;
      }
    }

    /** The loser of the ranking against the peer in the last slot: one of them stays there, the other is given back. There
        are two random bits. */
    method TakeTurns(loser: Candidate, bits: nat) returns (out: Candidate)
      requires Valid() && slots[max] != null
      modifies slots
      ensures forall j :: 0 <= j < max ==> slots[j] == old(slots[j])
      ensures var that := old(slots[max]);
        if Prefers(loser.stats, loser.Now(), that.stats, that.Now(), bits, env) then slots[max] == loser && out == that
        else slots[max] == that && out == loser
    {
      out := loser;
      if loser.IsEmpty(env) && !slots[max].IsEmpty(env) && bits != 0 {
        out, slots[max] := slots[max], loser;
      } else if loser.Before(slots[max]) {
        if !slots[max].IsEmpty(env) || loser.IsEmpty(env) || bits == 0 {
          out, slots[max] := slots[max], loser;
        }
      }
    }

    /** What the candidate `p` makes of the slots `s`, as everybody looks. If none of those for the best is vacant, `c` is that
        of one who is preferred to none of them; who loses against it has the last slot, or takes turns in it, if there is
        one. */
    ghost predicate Placed(looks: map<Candidate, Look>, s: seq<Candidate?>, p: Candidate, bits: nat, c: nat,
                           t: seq<Candidate?>)
      reads this
    {
      && |s| == max + 1 && c < Ranked() && p in looks && (forall j :: 0 <= j < |s| && s[j] != null ==> s[j] in looks)
      && if s[c] == null || looks[s[c]].failed then
           t == s[c := p] && forall j :: 0 <= j < c ==> s[j] != null && !looks[s[j]].failed
         else
           && (forall j :: 0 <= j < Ranked() ==>
             s[j] != null && !looks[s[j]].failed && AtLeast(s[j].stats, s[c].stats, env))
           && var first := AtLeast(p.stats, s[c].stats, env);
              t == Settle(looks, if first then s[c := p] else s, if first then s[c] else p, bits)
    }

    /** What becomes of the last slot when `x` has lost its own or got none. */
    ghost function Settle(looks: map<Candidate, Look>, s: seq<Candidate?>, x: Candidate, bits: nat): seq<Candidate?>
      requires |s| == max + 1 && x in looks && (s[max] != null ==> s[max] in looks)
    {
      if noOpt then s
      else if s[max] == null || looks[s[max]].failed then s[max := x]
      else if Prefers(x.stats, looks[x], s[max].stats, looks[s[max]], bits, env) then s[max := x]
      else s
    }

    ghost predicate Known(looks: map<Candidate, Look>, q: Candidate)
      reads q
    {
      q in looks && looks[q] == q.Now()
    }

    ghost predicate AllKnown(looks: map<Candidate, Look>)
      reads slots, Members()
    {
      forall j :: 0 <= j < slots.Length && slots[j] != null ==> Known(looks, slots[j])
    }

    /** Nobody among the best has failed. */
    ghost predicate Live()
      requires Valid()
      reads this, slots, Members()
    {
      forall j :: 0 <= j < Ranked() && slots[j] != null ==> !slots[j].failed
    }

    /** Gives the peer a slot if there is one for it; who is left without is choked. */
    method UnchokeCheck(peer: Candidate, bits: nat, ghost seen: seq<Candidate>, ghost looks: map<Candidate, Look>)
      returns (result: int, ghost c: nat)
      requires Valid() && max > 0 && Apart(slots[..]) && peer !in slots[..] && !peer.failed && peer !in seen
      requires AllKnown(looks) && Known(looks, peer)
      modifies slots, Members(), peer
      ensures Apart(slots[..]) && OneLess(old(slots[..]), peer, slots[..])
      ensures old(Live()) && Chosen(old(slots[..]), Ranked(), seen, env) ==> Live() && Chosen(slots[..], Ranked(), seen + [peer], env)
      ensures forall q: Candidate :: (q in old(slots[..]) || q == peer) && q !in slots[..] ==> q.failed || !q.unchoked
      ensures AllKnown(looks) && Placed(looks, old(slots[..]), peer, bits, c, slots[..])
      ensures forall q: Candidate :: (q in old(slots[..]) || q == peer) && q.failed && (old(q.failed) ==> old(q.credit) == 0) ==>
        q.credit == 0
      ensures result == if peer.failed then -1 else 0
    {
      hide AtLeast, Chosen, Prefers, Settle;
      result := 0;
      ghost var was := slots[..];
      var at := FindSlot();
      c := at;
      if Vacant(at) {
        assert was[c] == slots[c];
        forall j | 0 <= j < c ensures was[j] != null && !looks[was[j]].failed {
          assert !Vacant(j);
        }
        if Live() && Chosen(was, Ranked(), seen, env) {
          Inserted(was, Ranked(), seen, env, c, peer);
        }
        slots[at] := peer;
        Substituted(was, c, peer, slots[..]);
      } else {
        result := Compete(peer, at, bits, seen, looks);
      }
    }

    /** The moves between the slots: `loser` is left without one, or has the last one if that is vacant. */
    method Displace(peer: Candidate, c: nat, bits: nat) returns (first: bool, out: bool, loser: Candidate)
      requires Valid() && c < Ranked() && slots[c] != null
      modifies slots
      ensures first <==> AtLeast(peer.stats, old(slots[c]).stats, env)
      ensures out <==> noOpt || !old(Vacant(max))
      ensures Moved(old(slots[..]), Ranked(), c, peer, slots[..], first, out, loser)
      ensures !noOpt && out ==>
        var x, that := if first then old(slots[c]) else peer, old(slots[max]);
        slots[max] == if Prefers(x.stats, x.Now(), that.stats, that.Now(), bits, env) then x else that
    {
      hide AtLeast, Candidate.Before, Candidate.IsEmpty, Prefers;
      loser, out := peer, true;
      first := SelectUnchoke(peer.stats, slots[c].stats, env);
      if first {
        loser, slots[c] := slots[c], peer;
      }
      if !noOpt && Vacant(max) {
        slots[max] := loser;
        out := false;
      } else if !noOpt {
        loser := TakeTurns(loser, bits);
      }
    }

    lemma PlacedSo(looks: map<Candidate, Look>, s: seq<Candidate?>, p: Candidate, bits: nat, c: nat, t: seq<Candidate?>,
                   first: bool, out: bool, loser: Candidate)
      requires |s| == max + 1 && Moved(s, Ranked(), c, p, t, first, out, loser) && p in looks
      requires forall j :: 0 <= j < |s| && s[j] != null ==> s[j] in looks
      requires forall j :: 0 <= j < Ranked() ==> s[j] != null && !looks[s[j]].failed && AtLeast(s[j].stats, s[c].stats, env)
      requires first == AtLeast(p.stats, s[c].stats, env) && (out <==> noOpt || (s[max] != null && !looks[s[max]].failed))
      requires !noOpt && out ==>
        var x := if first then s[c] else p;
        t[max] == if Prefers(x.stats, looks[x], s[max].stats, looks[s[max]], bits, env) then x else s[max]
      ensures Placed(looks, s, p, bits, c, t)
    {
      hide AtLeast, Prefers;
      var u := if first then s[c := p] else s;
      assert forall i :: 0 <= i < Ranked() ==> t[i] == t[..Ranked()][i] && s[i] == s[..Ranked()][i];
      assert forall i :: 0 <= i < Ranked() ==> t[i] == u[i];
    }

    /** Ranks the peer against the least preferred of the best, who are all there. */
    method Compete(peer: Candidate, c: nat, bits: nat, ghost seen: seq<Candidate>, ghost looks: map<Candidate, Look>)
      returns (result: int)
      requires AllKnown(looks) && Known(looks, peer)
      requires Valid() && max > 0 && Apart(slots[..]) && peer !in slots[..] && !peer.failed && peer !in seen
      requires c < Ranked() && !Vacant(c)
      requires forall j :: 0 <= j < Ranked() ==> !Vacant(j) && AtLeast(slots[j].stats, slots[c].stats, env)
      modifies slots, Members(), peer
      ensures Apart(slots[..]) && OneLess(old(slots[..]), peer, slots[..])
      ensures Chosen(old(slots[..]), Ranked(), seen, env) ==> Live() && Chosen(slots[..], Ranked(), seen + [peer], env)
      ensures forall q: Candidate :: (q in old(slots[..]) || q == peer) && q !in slots[..] ==> q.failed || !q.unchoked
      ensures AllKnown(looks) && Placed(looks, old(slots[..]), peer, bits, c, slots[..])
      ensures forall q: Candidate :: (q in old(slots[..]) || q == peer) && q.failed && (old(q.failed) ==> old(q.credit) == 0) ==>
        q.credit == 0
      ensures result == if peer.failed then -1 else 0
    {
      hide AtLeast, Chosen, OneLess, Apart, Moved, Candidate.Before, Candidate.IsEmpty, Prefers, Placed, Settle;
      ghost var was := slots[..];
      result := 0;
      var first, out, loser := Displace(peer, c, bits);
      Competed(was, Ranked(), c, peer, slots[..], first, out, loser);
      PlacedSo(looks, was, peer, bits, c, slots[..], first, out, loser);
      if Chosen(was, Ranked(), seen, env) {
        Kept(was, Ranked(), seen, env, c, peer, slots[..], first, out, loser);
      }
      if out {
        var r := loser.SetLocal(false, now);
        if peer == loser {
          result := r;
        }
      }
    }

    /** Everybody in `peers` who has no slot is choked, or has failed. */
    ghost predicate Settled(peers: seq<Candidate>)
      reads slots, peers
    {
      forall i :: 0 <= i < |peers| && peers[i] !in slots[..] ==> peers[i].failed || !peers[i].unchoked
    }

    /** How the slots have changed in the pass: `trace` has them before each peer and at the end. */
    ghost predicate Traced(looks: map<Candidate, Look>, peers: seq<Candidate>, dice: seq<nat>, trace: seq<seq<Candidate?>>,
                           k: nat)
      requires k <= |peers| == |dice|
      reads this
    {
      && |trace| == k + 1
      && forall i :: 0 <= i < k ==> Next(looks, peers[i], dice[i], trace[i], trace[i + 1])
    }

    ghost predicate Next(looks: map<Candidate, Look>, p: Candidate, bits: nat, s: seq<Candidate?>, t: seq<Candidate?>)
      reads this
    {
      if p.wants then exists c: nat :: Placed(looks, s, p, bits, c, t) else t == s
    }

    lemma TracedNone(looks: map<Candidate, Look>, peers: seq<Candidate>, dice: seq<nat>, s: seq<Candidate?>)
      requires |dice| == |peers|
      ensures Traced(looks, peers, dice, [s], 0)
    {
    }

    lemma NextSame(looks: map<Candidate, Look>, p: Candidate, bits: nat, s: seq<Candidate?>)
      requires !p.wants
      ensures Next(looks, p, bits, s, s)
    {
    }

    lemma TracedMore(looks: map<Candidate, Look>, peers: seq<Candidate>, dice: seq<nat>, trace: seq<seq<Candidate?>>, k: nat,
                     t: seq<Candidate?>)
      requires k < |peers| == |dice| && Traced(looks, peers, dice, trace, k) && Next(looks, peers[k], dice[k], trace[k], t)
      ensures Traced(looks, peers, dice, trace + [t], k + 1)
    {
      hide Next;
    }

    /** How everybody looks. */
    ghost function Looks(peers: seq<Candidate>): map<Candidate, Look>
      reads peers
    {
      map q | q in peers :: q.Now()
    }

    /** The pass over the peers in FillFDSet: those who want something compete for the slots. */
    method CheckAll(peers: seq<Candidate>, dice: seq<nat>)
      returns (ghost seen: seq<Candidate>, ghost trace: seq<seq<Candidate?>>)
      requires Valid() && max > 0 && slots[..] == seq(max + 1, i => null) && |dice| == |peers|
      requires Distinct(peers) && forall i :: 0 <= i < |peers| ==> !peers[i].failed
      modifies slots, peers
      ensures Chosen(slots[..], Ranked(), seen, env) && Settled(peers)
      ensures forall i :: 0 <= i < |peers| ==> (peers[i].wants <==> peers[i] in seen)
      ensures forall i :: 0 <= i < |seen| ==> seen[i] in peers
      ensures |trace| == |peers| + 1 && trace[0] == old(slots[..]) && trace[|peers|] == slots[..]
      ensures Traced(old(Looks(peers)), peers, dice, trace, |peers|)
      ensures forall i :: 0 <= i < |peers| && peers[i].failed ==> peers[i].credit == 0
    {
      hide Chosen, OneLess, AtLeast, Placed, Next, Traced;
      ghost var looks := Looks(peers);
      seen, trace := [], [slots[..]];
      TracedNone(looks, peers, dice, slots[..]);
      NoneYet(slots[..], Ranked());
      for k := 0 to |peers|
        invariant Apart(slots[..]) && Live() && Chosen(slots[..], Ranked(), seen, env) && Settled(peers[..k])
        invariant forall j :: 0 <= j < slots.Length && slots[j] != null ==> slots[j] in peers[..k]
        invariant forall i :: 0 <= i < |seen| ==> seen[i] in peers[..k]
        invariant forall i :: 0 <= i < k ==> (peers[i].wants <==> peers[i] in seen)
        invariant AllKnown(looks) && forall i :: k <= i < |peers| ==> !peers[i].failed && Known(looks, peers[i])
        invariant forall i :: 0 <= i < k && peers[i].failed ==> peers[i].credit == 0
        invariant Traced(looks, peers, dice, trace, k) && |trace| == k + 1 && trace[0] == old(slots[..]) && trace[k] == slots[..]
      {
        Later(peers, k, slots[..], seen);
        if peers[k].wants {
          TakeNext(peers, k, dice[k], seen, looks);
          seen := seen + [peers[k]];
        } else {
          var _ := peers[k].SetLocal(false, now);
          NextSame(looks, peers[k], dice[k], trace[k]);
        }
        TracedMore(looks, peers, dice, trace, k, slots[..]);
        trace := trace + [slots[..]];
        assert peers[..k + 1] == peers[..k] + [peers[k]];
      }
      assert peers[..|peers|] == peers;
    }

    method TakeNext(peers: seq<Candidate>, k: nat, bits: nat, ghost seen: seq<Candidate>, ghost looks: map<Candidate, Look>)
      requires Valid() && max > 0 && k < |peers| && Distinct(peers) && Apart(slots[..]) && Live()
      requires Chosen(slots[..], Ranked(), seen, env) && Settled(peers[..k])
      requires forall j :: 0 <= j < slots.Length && slots[j] != null ==> slots[j] in peers[..k]
      requires peers[k] !in seen && peers[k] !in slots[..] && forall i :: k <= i < |peers| ==> !peers[i].failed
      requires forall i :: 0 <= i < k && peers[i].failed ==> peers[i].credit == 0
      requires AllKnown(looks) && peers[k].wants && forall i :: k <= i < |peers| ==> Known(looks, peers[i])
      modifies slots, peers
      ensures Apart(slots[..]) && Live() && Chosen(slots[..], Ranked(), seen + [peers[k]], env) && Settled(peers[..k + 1])
      ensures forall j :: 0 <= j < slots.Length && slots[j] != null ==> slots[j] in peers[..k + 1]
      ensures AllKnown(looks) && forall i :: k < i < |peers| ==> !peers[i].failed && Known(looks, peers[i])
      ensures forall i :: 0 <= i <= k && peers[i].failed ==> peers[i].credit == 0
      ensures Next(looks, peers[k], bits, old(slots[..]), slots[..])
    {
      hide Chosen, AtLeast, Placed;
      ghost var was := slots[..];
      var r;
      ghost var c;
      r, c := UnchokeCheck(peers[k], bits, seen, looks);
      forall i | 0 <= i < k + 1 && peers[i] !in slots[..] ensures peers[i].failed || !peers[i].unchoked {
        if i < k {
          assert peers[..k][i] == peers[i];
          assert peers[i] !in was ==> peers[i] !in old(Members());
        }
      }
      assert forall i :: 0 <= i < k + 1 ==> peers[..k + 1][i] == peers[i];
    }

    /** The end of FillFDSet, after which the peers in the slots, and no others, may download, but for connections that have
        failed. Who has the last slot is settled by the trace. */
    method Check(peers: seq<Candidate>, dice: seq<nat>)
      returns (ghost seen: seq<Candidate>, ghost trace: seq<seq<Candidate?>>)
      requires Valid() && max > 0 && slots[..] == seq(max + 1, i => null) && |dice| == |peers|
      requires Distinct(peers) && forall i :: 0 <= i < |peers| ==> !peers[i].failed
      modifies slots, peers
      ensures Chosen(slots[..], Ranked(), seen, env)
      ensures forall i :: 0 <= i < |peers| ==> (peers[i].wants <==> peers[i] in seen)
      ensures forall i :: 0 <= i < |peers| ==> peers[i].failed || (peers[i].unchoked <==> peers[i] in slots[..])
      ensures forall i :: 0 <= i < |peers| && peers[i].failed ==> peers[i].credit == 0
      ensures |trace| == |peers| + 1 && trace[0] == old(slots[..]) && trace[|peers|] == slots[..]
      ensures Traced(old(Looks(peers)), peers, dice, trace, |peers|)
    {
      hide Traced, Chosen;
      seen, trace := CheckAll(peers, dice);
      ghost var s := slots[..];
      InSlots(s, Ranked(), seen);
      var i := 0;
      while i < slots.Length && slots[i] != null
        invariant i <= slots.Length && s == slots[..] && Settled(peers)
        invariant forall j :: 0 <= j < i ==> slots[j] != null && (slots[j].failed || slots[j].unchoked)
        invariant forall j :: 0 <= j < |peers| && peers[j].failed ==> peers[j].credit == 0
      {
        assert slots[i] in seen;
        if !slots[i].failed {
          var _ := slots[i].SetLocal(true, now);
        }
        i := i + 1;
      }
      forall k | 0 <= k < |peers| && peers[k] in s ensures peers[k].failed || peers[k].unchoked {
        var j :| 0 <= j < |s| && s[j] == peers[k];
        assert j < i;
      }
    }

    lemma InSlots(s: seq<Candidate?>, k: nat, seen: seq<Candidate>)
      requires Chosen(s, k, seen, env)
      ensures Packed(s) && forall i :: 0 <= i < |s| && s[i] != null ==> s[i] in seen
    {
    }
  }

  lemma NoneYet(s: seq<Candidate?>, k: nat)
    requires k <= |s| && forall i :: 0 <= i < |s| ==> s[i] == null
    ensures forall env: Env :: Chosen(s, k, [], env)
  {
  }

  /** A candidate who is still to come is not there yet. */
  lemma Later(peers: seq<Candidate>, k: nat, s: seq<Candidate?>, seen: seq<Candidate>)
    requires Distinct(peers) && k < |peers|
    requires forall j :: 0 <= j < |s| && s[j] != null ==> s[j] in peers[..k]
    requires forall i :: 0 <= i < |seen| ==> seen[i] in peers[..k]
    ensures peers[k] !in s && peers[k] !in seen
  {
  }

  /** One of the slots has been given to the peer and its holder to another slot or to none, or nothing has changed. */
  ghost predicate OneLess(s: seq<Candidate?>, p: Candidate, t: seq<Candidate?>) {
    |s| == |t| && forall i :: 0 <= i < |t| && t[i] != null ==> t[i] == p || t[i] in s
  }

  lemma Substituted(s: seq<Candidate?>, c: nat, p: Candidate, t: seq<Candidate?>)
    requires Apart(s) && p !in s && c < |s| && t == s[c := p]
    ensures Apart(t) && OneLess(s, p, t) && p in t
    ensures forall q: Candidate :: q in s && q !in t ==> q == s[c]
  {
    assert t[c] == p;
    forall q: Candidate | q in s && q !in t ensures q == s[c] {
      var i :| 0 <= i < |s| && s[i] == q;
      assert t[i] == if i == c then p else q;
    }
  }

  /** Slots `s` have become `t`: the peer has got slot `c` or not, and who is left has got the last slot or not. */
  ghost predicate Moved(s: seq<Candidate?>, k: nat, c: nat, p: Candidate, t: seq<Candidate?>, first: bool, out: bool,
                        loser: Candidate) {
    && |s| == |t| && c < k <= |s| <= k + 1 && s[c] != null
    && t[..k] == (if first then s[..k][c := p] else s[..k])
    && var x := if first then s[c] else p;
      if k == |s| then out && loser == x
      else if !out then t[k] == loser == x
      else s[k] != null && ((t[k] == x && loser == s[k]) || (t[k] == s[k] && loser == x))
  }

  /** Who has been in the slots, or has come, and is not in them now is the loser, or the one whose place the loser has. */
  lemma Competed(s: seq<Candidate?>, k: nat, c: nat, p: Candidate, t: seq<Candidate?>, first: bool, out: bool,
                 loser: Candidate)
    requires Apart(s) && p !in s && Moved(s, k, c, p, t, first, out, loser)
    ensures Apart(t) && OneLess(s, p, t) && (out <==> loser !in t) && (loser == p || loser in s)
    ensures |s| == |t| && k <= |s| && forall i :: 0 <= i < k ==> t[i] == p || t[i] == s[i]
    ensures forall q: Candidate :: (q in s || q == p) && q !in t ==> if out then q == loser else k < |s| && q == s[k]
  {
    assert t[..k][c] == t[c] && s[..k][c] == s[c];
    assert forall i :: 0 <= i < k ==> t[i] == t[..k][i] && s[i] == s[..k][i];
    if !out {
      assert t[k] == loser;
    }
    forall q: Candidate | (q in s || q == p) && q !in t ensures if out then q == loser else k < |s| && q == s[k] {
      if q in s {
        var i :| 0 <= i < |s| && s[i] == q;
        assert t[i] != q;
      }
      assert t[c] != q && (k < |s| ==> t[k] != q);
    }
  }

  lemma Inserted(s: seq<Candidate?>, k: nat, seen: seq<Candidate>, env: Env, c: nat, p: Candidate)
    requires Chosen(s, k, seen, env) && c < k && s[c] == null && p !in s && p !in seen
    requires forall j :: 0 <= j < c ==> s[j] != null
    ensures Chosen(s[c := p], k, seen + [p], env)
  {
    hide AtLeast;
    var t := s[c := p];
    forall i | 0 <= i < |seen + [p]| ensures (seen + [p])[i] in t[..k] {
      var q := (seen + [p])[i];
      if i < |seen| {
        assert q == seen[i] && s[..k][c] == null;
        assert q in s[..k];
        var j :| 0 <= j < k && s[..k][j] == q;
        assert t[..k][j] == q;
      } else {
        assert t[..k][c] == q;
      }
    }
  }

  /** After the candidate has been ranked against the least preferred of the best, who are all there. */
  lemma Kept(s: seq<Candidate?>, k: nat, seen: seq<Candidate>, env: Env, c: nat, p: Candidate, t: seq<Candidate?>,
             first: bool, out: bool, loser: Candidate)
    requires Chosen(s, k, seen, env) && p !in s && p !in seen && Moved(s, k, c, p, t, first, out, loser) && Apart(t)
    requires forall j :: 0 <= j < k ==> s[j] != null && AtLeast(s[j].stats, s[c].stats, env)
    requires first == AtLeast(p.stats, s[c].stats, env)
    ensures Chosen(t, k, seen + [p], env)
  {
    hide AtLeast;
    assert forall i :: 0 <= i < k ==> t[i] == t[..k][i] && s[i] == s[..k][i];
    Total(p.stats, s[c].stats, env);
    if first {
      assert t[..k][c] == p;
    }
    forall i | 0 <= i < |seen + [p]| && (seen + [p])[i] !in t[..k] ensures AllAtLeast(t[..k], (seen + [p])[i], env) {
      var q := (seen + [p])[i];
      if q == p {
        forall j | 0 <= j < k ensures AtLeast(s[j].stats, p.stats, env) {
          Transitive(s[j].stats, s[c].stats, p.stats, env);
        }
      } else if q in s[..k] {
        assert q == s[c] by {
          var j :| 0 <= j < k && s[..k][j] == q;
          assert t[..k][j] == if j == c then p else q;
        }
      } else {
        assert AllAtLeast(s[..k], q, env) && s[..k][c] == s[c];
        if first {
          Transitive(p.stats, s[c].stats, q.stats, env);
        }
      }
    }
  }
}
