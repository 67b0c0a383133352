/** Printing and decoding are inverse to each other, and a query finds what is under a path (bencode.cpp). */
module BencodeQuery {
  import opened BencodeText
  import opened BencodeValues
  import opened Bencode
  import opened Options

  lemma {:induction false} RestSkips(a: string, b: string)
    requires KEY_SP !in a && (b != "" ==> b[0] == KEY_SP)
    ensures Rest(a + b) == if b == "" then "" else b[1..]
  {
    if a == "" {
      assert a + b == b;
    } else {
      assert (a + b)[1..] == a[1..] + b;
      RestSkips(a[1..], b);
    }
  }

  lemma MatchesHead(key: string, a: string, b: string)
    requires KEY_SP !in key && KEY_SP !in a && (b != "" ==> b[0] == KEY_SP)
    ensures Matches(key, a + b) <==> key == a
  {
    var keys := a + b;
    assert keys[..|a|] == a;
    if |key| < |a| {
      assert keys[|key|] == a[|key|] && a[|key|] in a;
    } else if |key| > |a| {
      assert key[|a|] in key;
    }
  }

  /** The first component of a path, and the rest. */
  lemma JoinParts(path: seq<string>)
    requires path != [] && PathKeys(path)
    ensures Rest(Join(path)) == Join(path[1..]) && (Join(path[1..]) == "" <==> |path| == 1)
    ensures forall key: string :: KEY_SP !in key ==> (Matches(key, Join(path)) <==> key == path[0])
  {
    var b := if |path| == 1 then "" else "|" + Join(path[1..]);
    assert Join(path) == path[0] + b;
    RestSkips(path[0], b);
    if |path| > 1 {
      assert path[1..][0] != "";
    }
    forall key: string | KEY_SP !in key ensures Matches(key, Join(path)) <==> key == path[0] {
      MatchesHead(key, path[0], b);
    }
  }

  predicate Keys(entries: seq<Pair>) {
    forall i :: 0 <= i < |entries| ==> PrintablePair(entries[i])
  }

  /** A key list leads to what is under its path. */
  lemma {:induction false} LookupIsWalk(entries: seq<Pair>, path: seq<string>)
    requires Keys(entries) && path != [] && PathKeys(path)
    ensures Lookup(EntryTrees(entries), Join(path)) ==
      match Walk(Map(entries), path) case None => None case Some(w) => Some(Form(w))
    decreases |path|
  {
    hide PrintablePair;
    JoinParts(path);
    var es, i := EntryTrees(entries), FindKey(entries, path[0]);
    forall j | 0 <= j < i ensures es[j].key.Str? && !Matches(es[j].key.body, Join(path)) {
      PairKey(entries[j]);
    }
    LookupLater(es, Join(path), i);
    if i < |entries| {
      assert es[i..][0] == es[i];
      PairKey(entries[i]);
      var value := entries[i].value;
      assert Walk(Map(entries), path) == Walk(value, path[1..]);
      assert es[i] == EntryTree(entries[i]) && Form(value).Dict? == value.Map?;
      if |path| > 1 && value.Map? {
        LookupIsWalk(value.entries, path[1..]);
      }
    }
  }

  lemma PairKey(p: Pair)
    requires PrintablePair(p)
    ensures KEY_SP !in p.key && (p.value.Map? ==> Keys(p.value.entries))
  {
  }
}
