/** File paths as lists of names (bencode_path2list and decode_list2path in bencode.cpp). */
module BencodePath {
  import opened BencodeText
  import opened BencodeValues
  import opened Bencode
  import opened BencodePrint

  const PATH_SP := '/'
  const MAXPATHLEN: nat := 1024

  /** strchr: the place of the first separator, or the end. */
  function First(p: string): (n: nat)
    ensures n <= |p| && PATH_SP !in p[..n] && (n < |p| ==> p[n] == PATH_SP)
  {
    if p == "" || p[0] == PATH_SP then 0
    else
      assert p[..First(p[1..]) + 1] == [p[0]] + p[1..][..First(p[1..])];
      First(p[1..]) + 1
  }

  function Components(p: string): seq<string>
    decreases |p|
  {
    if p == "" then []
    else [p[..First(p)]] + if First(p) == |p| then [] else Components(p[First(p) + 1..])
  }

  function Joined(names: seq<string>): string {
    if |names| == 0 then "" else if |names| == 1 then names[0] else names[0] + [PATH_SP] + Joined(names[1..])
  }

  predicate NoneEmpty(names: seq<string>) {
    forall i :: 0 <= i < |names| ==> names[i] != ""
  }

  function Names(names: seq<string>): Value {
    Seq(seq(|names|, i requires 0 <= i < |names| => Chars(names[i])))
  }

  /** How the list of names is printed. */
  function NameTrees(names: seq<string>): (r: seq<Tree>)
    ensures |r| == |names| && forall i :: 0 <= i < |r| ==> r[i] == StrTree(names[i])
  {
    Trees(Names(names).items)
  }

  lemma NamesText(names: seq<string>)
    ensures Form(Names(names)) == List(NameTrees(names))
    ensures Text(Form(Names(names))) == "l" + TextAll(NameTrees(names)) + "e"
  {
  }

  lemma NamesNext(names: seq<string>, name: string)
    ensures TextAll(NameTrees(names + [name])) == TextAll(NameTrees(names)) + Text(StrTree(name))
  {
    hide Text, NameTrees;
    var a, b := NameTrees(names), NameTrees(names + [name]);
    TextAllNext(b, |names|);
    assert b[..|names|] == a;
    assert b[..|names| + 1] == b;
  }

  /** A path without the separator at its end. */
  function Trimmed(p: string): string {
    if p != "" && p[|p| - 1] == PATH_SP then p[..|p| - 1] else p
  }

  lemma TrimmedTail(a: string, p: string)
    requires p != ""
    ensures Trimmed(a + p) == a + Trimmed(p)
  {
    assert (a + p)[..|a + p| - 1] == a + p[..|p| - 1];
  }

  lemma FirstComponent(p: string)
    requires p != ""
    ensures var n := First(p);
      Components(p) == [p[..n]] + Components(if n == |p| then "" else p[n + 1..])
  {
    assert Components("") == [];
  }

  lemma JoinedHead(name: string, more: seq<string>)
    ensures Joined([name] + more) == if more == [] then name else name + [PATH_SP] + Joined(more)
  {
    assert ([name] + more)[1..] == more;
  }

  /** Splitting a path and joining it again only drops a separator at its end. */
  lemma {:induction false} JoinComponents(p: string)
    ensures Joined(Components(p)) == Trimmed(p)
    ensures Components(p) == [] <==> p == ""
    decreases |p|
  {
    hide First, Joined, Components, Trimmed;
    if p == "" {
      NoComponents();
    } else {
      var n := First(p);
      var head, rest := p[..n], if n == |p| then "" else p[n + 1..];
      FirstComponent(p);
      assert Components(p) == [head] + Components(rest);
      JoinedHead(head, Components(rest));
      JoinComponents(rest);
      if n == |p| {
        LastName(p);
      } else {
        TrimmedParts(p, n);
      }
    }
  }

  lemma NoComponents()
    ensures Components("") == [] && Joined([]) == "" == Trimmed("")
  {
  }

  lemma LastName(p: string)
    requires p != "" && PATH_SP !in p[..|p|]
    ensures p[..|p|] == p == Trimmed(p)
  {
    assert p[..|p|] == p;
    assert p[|p| - 1] in p;
  }

  lemma TrimmedParts(p: string, n: nat)
    requires n < |p| && p[n] == PATH_SP
    ensures Trimmed(p) == p[..n] + if n + 1 == |p| then "" else [PATH_SP] + Trimmed(p[n + 1..])
  {
    var head, rest := p[..n], p[n + 1..];
    assert p == head + [PATH_SP] + rest;
    if rest != "" {
      TrimmedTail(head + [PATH_SP], rest);
    }
  }

  /** The names that have been split off `path` before `rest`. */
  ghost predicate Split(path: string, done: seq<string>, rest: string) {
    Components(path) == done + Components(rest) && NoneEmpty(done) && |rest| <= |path|
  }

  lemma SplitNext(path: string, done: seq<string>, p: string)
    requires Split(path, done, p) && p != ""
    ensures var n, rest := First(p), if First(p) == |p| then "" else p[First(p) + 1..];
      if n == 0 then !NoneEmpty(Components(path)) else Split(path, done + [p[..n]], rest) && |rest| < |p|
  {
    hide First, Components;
    var n := First(p);
    FirstComponent(p);
    MoveOver(Components(path), done, p[..n], Components(if n == |p| then "" else p[n + 1..]));
  }

  lemma MoveOver(all: seq<string>, done: seq<string>, name: string, more: seq<string>)
    requires all == done + ([name] + more) && NoneEmpty(done)
    ensures all == (done + [name]) + more
    ensures if name == "" then !NoneEmpty(all) else NoneEmpty(done + [name])
  {
    assert all[|done|] == name;
  }

  lemma SplitAll(path: string, done: seq<string>)
    requires Split(path, done, "")
    ensures done == Components(path) && NoneEmpty(done)
  {
  }

  /** bencode_path2list: succeeds unless a name, other than after a separator at the end, is empty. */
  method Path2List(out: Output, path: string) returns (ok: bool)
    requires |path| <= INT32_MAX
    modifies out
    ensures ok <==> NoneEmpty(Components(path))
    ensures ok ==> out.data == old(out.data) + Text(Form(Names(Components(path))))
  {
    hide *;
    out.BeginList();
    var p := path;
    ghost var done: seq<string> := [];
    Start(path);
    while p != ""
      invariant Split(path, done, p) && |p| <= |path|
      invariant out.data == old(out.data) + "l" + TextAll(NameTrees(done))
      decreases |p|
    {
      var n := First(p);
      SplitNext(path, done, p);
      NamesNext(done, p[..n]);
      ok := out.PutBuf(p[..n]);
      if !ok {
        return;
      }
      done := done + [p[..n]];
      if n == |p| {
        p := "";
        break;
      }
      p := p[n + 1..];
    }
    SplitAll(path, done);
    NamesText(done);
    out.EndDictList();
    ok := true;
  }

  lemma Start(path: string)
    ensures TextAll(NameTrees([])) == "" && Split(path, [], path)
  {
  }

  /** The path after `k` names, with a separator if there are more. */
  function Upto(names: seq<string>, k: nat): string
    requires k <= |names|
  {
    Joined(names[..k]) + if 0 < k < |names| then [PATH_SP] else ""
  }

  lemma {:induction false} JoinedNext(names: seq<string>, k: nat)
    requires k < |names|
    ensures Joined(names[..k + 1]) == Upto(names, k) + names[k]
    ensures Joined(names) == Upto(names, k) + Joined(names[k..])
  {
    if k == 0 {
      assert names[0..] == names;
    } else {
      JoinedNext(names[1..], k - 1);
      assert names[1..][..k] == names[..k + 1][1..] && names[1..][..k - 1] == names[..k][1..];
      assert names[1..][k - 1..] == names[k..];
    }
  }

  /** There is room for the next name, and after it for a separator if more are to come. */
  lemma Room(names: seq<string>, k: nat)
    requires k < |names| && NoneEmpty(names)
    ensures |Upto(names, k)| + |names[k]| + (if k + 1 < |names| then 2 else 0) <= |Joined(names)|
    ensures names[k] != "" && Upto(names, k + 1) == Upto(names, k) + names[k] + (if k + 1 < |names| then [PATH_SP] else "")
  {
    JoinedNext(names, k);
    if k + 1 < |names| {
      assert names[k..][1..][0] != "";
    }
  }

  /** The text starts with a list of names, whatever the spelling of their lengths. */
  ghost predicate Listing(b: string, items: seq<Tree>) {
    Starts(b, List(items)) && items != [] && forall i :: 0 <= i < |items| ==> items[i].Str?
  }

  /** The names of a list. */
  function Bodies(items: seq<Tree>): (names: seq<string>)
    ensures |names| == |items|
  {
    seq(|items|, i requires 0 <= i < |items| => if items[i].Str? then items[i].body else "")
  }

  lemma BodiesOf(names: seq<string>)
    ensures Bodies(NameTrees(names)) == names && Form(Names(names)) == List(NameTrees(names))
    ensures forall i :: 0 <= i < |names| ==> NameTrees(names)[i].Str?
  {
    NamesText(names);
  }

  /** The length of the path with name `k` as its last. */
  function LengthTo(names: seq<string>, k: nat): nat
    requires k < |names|
  {
    |names[k]| + if k == 0 then 0 else LengthTo(names, k - 1) + 1
  }

  lemma {:induction false} LengthUpto(names: seq<string>, k: nat)
    requires k < |names|
    ensures |Upto(names, k)| + |names[k]| == LengthTo(names, k) >= k
    ensures Upto(names, k + 1) == Upto(names, k) + names[k] + if k + 1 < |names| then [PATH_SP] else ""
  {
    JoinedNext(names, k);
    if k > 0 {
      LengthUpto(names, k - 1);
    } else {
      assert Upto(names, 0) == "";
    }
  }

  /** Name `k` is copied into the buffer: each one before it has left room for two characters and the end mark, and the
      names, without what separates them, are shorter than the buffer. */
  ghost predicate Copied(names: seq<string>, maxlen: nat, k: nat)
    requires k < |names|
  {
    1 < maxlen && LengthTo(names, k) - k < maxlen && forall j :: 0 <= j < k ==> LengthTo(names, j) + 2 < maxlen
  }

  /** The end mark comes after the last name only. */
  function Mark(names: seq<string>, k: nat): nat {
    if k + 1 == |names| then 1 else 0
  }

  /** The path, or the end mark after it, goes past the end of the buffer. */
  ghost predicate Overruns(names: seq<string>, maxlen: nat) {
    || maxlen == 0
    || exists k :: 0 <= k < |names| && Copied(names, maxlen, k) && maxlen < LengthTo(names, k) + Mark(names, k)
  }

  /** Two names whose path fills the buffer, whatever its size, so that there is no room for the end mark. */
  lemma OverrunsTwo(a: string, b: string, maxlen: nat)
    requires |a| + 2 < maxlen == |a| + 1 + |b|
    ensures Overruns([a, b], maxlen) && |Joined([a, b])| == maxlen
  {
    var names := [a, b];
    assert LengthTo(names, 0) == |a| && LengthTo(names, 1) == maxlen;
    assert Copied(names, maxlen, 1);
    assert names[1..] == [b];
  }

  /** Names of 500 and 523 characters, and the buffer that a path of a torrent is read into. */
  lemma OverrunsPath(a: string, b: string)
    requires |a| == 500 && |b| == 523
    ensures Overruns([a, b], MAXPATHLEN)
  {
    OverrunsTwo(a, b, MAXPATHLEN);
  }

  /** Where name `k` is in the text. */
  function Place(items: seq<Tree>, k: nat): nat
    requires k <= |items|
  {
    1 + |TextAll(items[..k])|
  }

  lemma NameAt(b: string, items: seq<Tree>, k: nat)
    requires Listing(b, items) && k < |items|
    ensures var p, t := Place(items, k), items[k];
      && p < |b| && Starts(b[p..], t) && 2 <= |b[p..]| && Place(items, k + 1) == p + |Text(t)| < |b|
      && (k + 1 == |items| <==> b[Place(items, k + 1)] == 'e')
      && t.Str? && t.body == Bodies(items)[k] && Text(t) != ""
    ensures k + 1 == |items| ==> Place(items, k + 1) + 1 == |Text(List(items))|
  {
    hide WellFormed, TextAll, Text;
    var v := List(items);
    ListPlace(b, v, k);
    ListPlace(b, v, k + 1);
    TextAllNext(items, k);
    TextOf(items[k]);
  }

  lemma TextOf(t: Tree)
    requires t.Str?
    ensures Text(t) != ""
  {
  }

  lemma UptoAll(names: seq<string>)
    ensures Upto(names, |names|) == Joined(names)
  {
    assert names[..|names|] == names;
  }

  ghost predicate AllCopied(names: seq<string>, maxlen: nat) {
    forall k :: 0 <= k < |names| ==> Copied(names, maxlen, k)
  }

  /** Every name of a path that fits is copied. */
  lemma FittingCopied(names: seq<string>, maxlen: nat)
    requires names != [] && NoneEmpty(names) && |Joined(names)| < maxlen
    ensures AllCopied(names, maxlen) && !Overruns(names, maxlen)
  {
    hide Joined, Upto, LengthTo;
    forall k | 0 <= k < |names| ensures LengthTo(names, k) < maxlen && 1 < maxlen && (k + 1 < |names| ==> LengthTo(names, k) + 2 < maxlen) {
      Room(names, k);
      LengthUpto(names, k);
    }
  }

  lemma Listed(b: string, items: seq<Tree>)
    requires Listing(b, items)
    ensures items != [] && |Bodies(items)| == |items| && 2 <= |b| && b[0] == 'l'
  {
    assert Text(List(items)) <= b;
  }

  /** Each of the first `k` names has left room for a separator, and each but the last of them for more. */
  ghost predicate Passed(names: seq<string>, maxlen: nat, k: nat)
    requires k <= |names|
  {
    && (forall j :: 0 <= j < k ==> LengthTo(names, j) + 1 < maxlen)
    && (forall j :: 0 <= j < k - 1 ==> LengthTo(names, j) + 2 < maxlen)
  }

  lemma NoNames(items: seq<Tree>, names: seq<string>)
    ensures Upto(names, 0) == "" && Place(items, 0) == 1 && forall maxlen: nat :: Passed(names, maxlen, 0)
  {
  }

  /** Whether name `k` goes past the end, when it is the last that is copied. */
  lemma Verdict(names: seq<string>, maxlen: nat, k: nat)
    requires k < |names| && 1 < maxlen && Passed(names, maxlen, k) && (k > 0 ==> LengthTo(names, k - 1) + 2 < maxlen)
    requires k + 1 == |names| || LengthTo(names, k) + 2 >= maxlen
    ensures Overruns(names, maxlen) <==> LengthTo(names, k) - k < maxlen < LengthTo(names, k) + Mark(names, k)
    ensures LengthTo(names, k) - k >= maxlen || k + 1 < |names| ==> !AllCopied(names, maxlen)
  {
    hide LengthTo;
    if k + 1 < |names| {
      assert !Copied(names, maxlen, k + 1);
    }
    if LengthTo(names, k) - k < maxlen < LengthTo(names, k) + Mark(names, k) {
      assert Copied(names, maxlen, k);
    }
  }

  lemma PassedNext(names: seq<string>, maxlen: nat, k: nat)
    requires k < |names| && Passed(names, maxlen, k) && (k > 0 ==> LengthTo(names, k - 1) + 2 < maxlen)
    ensures LengthTo(names, k) + 1 < maxlen ==> Passed(names, maxlen, k + 1)
  {
    hide LengthTo;
  }

  /** The next name is not copied, for want of room. */
  lemma Stopped(names: seq<string>, maxlen: nat, k: nat)
    requires k < |names| && Passed(names, maxlen, k)
    requires if k == 0 then maxlen <= 1 else LengthTo(names, k - 1) + 2 >= maxlen
    ensures Overruns(names, maxlen) <==> maxlen == 0
    ensures !AllCopied(names, maxlen) && (k > 0 ==> LengthTo(names, k - 1) + 1 < maxlen)
  {
    hide LengthTo;
    assert !Copied(names, maxlen, k);
    if 0 < maxlen {
      forall i | k <= i < |names| ensures !Copied(names, maxlen, i) {
        if k > 0 { assert LengthTo(names, k - 1) + 2 >= maxlen; }
      }
    }
  }

  /** decode_list2path: a list of names all of which are copied is decoded to their path. `top` is how far the buffer is
      written to. */
  method List2Path(b: string, maxlen: nat, ghost items: seq<Tree>) returns (n: nat, path: string, top: nat)
    ensures Listing(b, items) && AllCopied(Bodies(items), maxlen) ==> n == |Text(List(items))| && path == Joined(Bodies(items))
    ensures top == |path| + if n > 0 then 1 else 0
    ensures Listing(b, items) ==> (top > maxlen <==> Overruns(Bodies(items), maxlen))
  {
    hide Text, WellFormed, Joined, Bodies, Listing, Upto, Place, Copied, AllCopied, Overruns, LengthTo, Passed;
    ghost var k, listed, names := 0, Listing(b, items), Bodies(items);
    n, path, top := 0, "", 0;
    if listed {
      Listed(b, items);
      NameAt(b, items, 0);
      NoNames(items, names);
    }
    if |b| < 2 || b[0] != 'l' {
      return;
    }
    var p, left := 1, maxlen;
    while p < |b| && |path| + 1 < maxlen
      invariant p <= |b| && 0 <= left && top == |path|
      invariant listed ==> k < |names| && p == Place(items, k) < |b| && path == Upto(names, k) && left == maxlen - |path| + k
      invariant listed ==> Passed(names, maxlen, k) && (k > 0 ==> |path| == LengthTo(names, k - 1) + 1)
      decreases |b| - p
    {
      ghost var w := if listed then items[k] else Int("");
      if listed {
        NameAt(b, items, k);
        LengthUpto(names, k);
        PassedNext(names, maxlen, k);
      }
      var r, start, q;
      ghost var t;
      r, start, q, t := BufStr(b[p..], w);
      if r == 0 || q >= left {
        if listed { Verdict(names, maxlen, k); }
        return;
      }
      path, left := path + b[p..][start..start + q], left - q;
      top := |path|;
      p := p + r;
      k := k + 1;
      if p < |b| && b[p] == 'e' {
        if listed { LastCopied(names, maxlen, k - 1); }
        break;
      }
      if |path| + 1 >= maxlen {
        if listed { Verdict(names, maxlen, k - 1); }
        return;
      }
      path := path + [PATH_SP];
      top := |path|;
      if listed {
        NameAt(b, items, k);
      }
    }
    if listed && k < |names| { Stopped(names, maxlen, k); }
    top := |path| + 1;
    n := p + 1;
  }

  lemma LastCopied(names: seq<string>, maxlen: nat, k: nat)
    requires k + 1 == |names| && 1 < maxlen && Passed(names, maxlen, k) && (k > 0 ==> LengthTo(names, k - 1) + 2 < maxlen)
    requires LengthTo(names, k) - k < maxlen
    ensures Overruns(names, maxlen) <==> maxlen < LengthTo(names, k) + 1
    ensures Upto(names, |names|) == Joined(names)
  {
    hide LengthTo, Upto, Joined, Passed;
    Verdict(names, maxlen, k);
    UptoAll(names);
  }
}
