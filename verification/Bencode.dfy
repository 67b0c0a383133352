/** The decoder of bencode.cpp, on the text between the start and the length that it is given. */
module Bencode {
  import opened BencodeText
  import opened Options

  /** The text starts with item `v`. */
  ghost predicate Starts(b: string, v: Tree) {
    WellFormed(v) && Text(v) <= b
  }

  /** An integer between two characters, the first of which may be missing; its length in the text and its value. */
  method BufInt(b: string, begin: Option<char>, end: char) returns (n: nat, value: nat)
    requires !IsDigit(end)
    ensures n > 0 ==> IntAt(b, begin, end, n) && value == Strtoll(b[Skip(begin)..n - 1])
    ensures forall m :: IntAt(b, begin, end, m) ==> n == m
  {
    n, value := 0, 0;
    if |b| < 2 {
      return;
    }
    var start := 0;
    if begin.Some? {
      if b[0] != begin.value {
        return;
      }
      start := 1;
    }
    var p := start;
    while p < |b| && IsDigit(b[p])
      invariant start <= p <= |b| && Digits(b[start..p])
    {
      assert b[start..p + 1] == b[start..p] + [b[p]];
      p := p + 1;
    }
    DigitsAt(b, start, p);
    forall m | IntAt(b, begin, end, m) ensures p == m - 1 {
      DigitsAt(b, start, m - 1);
    }
    if p == |b| || MAX_INT_SIZ < p - start || b[p] != end {
      return;
    }
    n, value := p + 1, Strtoll(b[start..p]);
  }

  lemma DigitsAt(b: string, i: nat, j: nat)
    requires i <= j <= |b| && Digits(b[i..j])
    ensures forall k :: i <= k < j ==> IsDigit(b[k])
  {
    forall k | i <= k < j ensures IsDigit(b[k]) {
      assert b[i..j][k - i] == b[k];
    }
  }

  function Skip(begin: Option<char>): nat {
    if begin.Some? then 1 else 0
  }

  /** The first `n` characters are an integer. */
  predicate IntAt(b: string, begin: Option<char>, end: char, n: int) {
    && 2 <= |b| && Skip(begin) < n <= |b| && (begin.Some? ==> b[0] == begin.value)
    && NumberText(b[Skip(begin)..n - 1]) && b[n - 1] == end
  }

  lemma StrStarts(b: string, v: Tree)
    requires Starts(b, v) && v.Str? && 2 <= |b|
    ensures IntAt(b, None, ':', |v.digits| + 1) && b[..|v.digits|] == v.digits && Strtoll(v.digits) == |v.body|
    ensures |Text(v)| == |v.digits| + 1 + |v.body| <= |b| && b[|v.digits| + 1..|Text(v)|] == v.body
  {
    assert Text(v) == v.digits + [':'] + v.body == b[..|Text(v)|];
    assert b[0..|v.digits|] == v.digits && b[|v.digits|] == ':';
  }

  /** A string: its length in the text, and where it starts and how long it is. */
  method BufStr(b: string, ghost v: Tree) returns (n: nat, start: nat, len: nat, ghost t: Tree)
    ensures n <= |b| && start + len == n
    ensures n > 0 ==> Starts(b, t) && t.Str? && Text(t) == b[..n] && t.body == b[start..n]
    ensures Starts(b, v) && v.Str? && 2 <= |b| ==> t == v && n == |Text(v)|
  {
    t := Int("");
    var rl, sl := BufInt(b, None, ':');
    n, start, len := 0, 0, 0;
    if Starts(b, v) && v.Str? && 2 <= |b| {
      StrStarts(b, v);
    }
    if rl == 0 || |b| < rl + sl {
      return;
    }
    n, start, len := rl + sl, rl, sl;
    t := Str(b[..rl - 1], b[rl..n]);
    assert b[0..rl - 1] == b[..rl - 1];
    assert Text(t) == b[..rl - 1] + [':'] + b[rl..n] == b[..n];
  }

  const KEY_SP := '|'

  /** What follows the first component of a key list. */
  function Rest(keys: string): (r: string)
    ensures keys != "" ==> |r| < |keys|
    ensures keys == "" ==> r == ""
  {
    if keys == "" then "" else if keys[0] == KEY_SP then keys[1..] else Rest(keys[1..])
  }

  /** The key is what the key list starts with, up to a separator or its end. */
  predicate Matches(key: string, keys: string) {
    key <= keys && (|key| == |keys| || keys[|key|] == KEY_SP)
  }

  /** next_key */
  method NextKey(keys: string) returns (rest: string)
    ensures rest == Rest(keys)
  {
    var i := 0;
    while i < |keys| && keys[i] != KEY_SP
      invariant i <= |keys| && Rest(keys) == Rest(keys[i..])
    {
      assert keys[i..][1..] == keys[i + 1..];
      i := i + 1;
    }
    if i < |keys| {
      i := i + 1;
      assert keys[i - 1..][1..] == keys[i..];
    }
    rest := keys[i..];
  }

  /** compare_key */
  method CompareKey(key: string, keys: string) returns (r: nat)
    ensures r == 0 <==> Matches(key, keys)
  {
    var i := 0;
    while i < |key| && i < |keys| && key[i] == keys[i]
      invariant i <= |key| && i <= |keys| && key[..i] == keys[..i]
    {
      i := i + 1;
    }
    if i == |key| && i < |keys| && keys[i] != KEY_SP {
      return 1;
    }
    r := |key| - i;
  }

  /** The value that a key list leads to: in each dictionary the first key that matches counts. */
  function Lookup(entries: seq<Entry>, keys: string): Option<Tree>
    decreases |keys|, |entries|
  {
    if entries == [] then None
    else if entries[0].key.Str? && Matches(entries[0].key.body, keys) then
      if Rest(keys) == "" then Some(entries[0].value)
      else if entries[0].value.Dict? then Lookup(entries[0].value.entries, Rest(keys))
      else None
    else Lookup(entries[1..], keys)
  }

  lemma {:induction false} LookupLater(entries: seq<Entry>, keys: string, k: nat)
    requires k <= |entries|
    requires forall i :: 0 <= i < k ==> entries[i].key.Str? && !Matches(entries[i].key.body, keys)
    ensures Lookup(entries, keys) == Lookup(entries[k..], keys)
  {
    if k > 0 {
      LookupLater(entries[1..], keys, k - 1);
      assert entries[1..][k - 1..] == entries[k..];
    } else {
      assert entries[0..] == entries;
    }
  }

  /** Query by a key list: nothing if the value is not there, otherwise the place of its text. */
  ghost predicate Lands(b: string, v: Tree, keys: string, n: nat)
    requires v.Dict? && n <= |b|
  {
    match Lookup(v.entries, keys)
    case None => n == 0
    case Some(w) => n > 0 && WellFormed(w) && Text(w) <= b[n..] && |b[n..]| > |Text(w)|
  }

  /** What decoding an item, perhaps in search of a key, is to give: its length in the text, or the place of the value. */
  ghost predicate Decoded(b: string, keys: Option<string>, v: Tree, n: nat, t: Option<Tree>) {
    && n <= |b|
    && (keys.None? ==>
      && (t.Some? <==> n > 0)
      && (t.Some? ==> Starts(b, t.value) && n == |Text(t.value)|)
      && (Starts(b, v) && 2 <= |b| ==> t == Some(v)))
    && (keys.Some? && Starts(b, v) && v.Dict? ==> Lands(b, v, keys.value, n))
  }

  method DecodeRev(b: string, keys: Option<string>, ghost v: Tree) returns (n: nat, ghost t: Option<Tree>)
    ensures Decoded(b, keys, v, n, t)
    ensures keys.None? && Starts(b, v) && 2 <= |b| ==> n == |Text(v)|
    decreases |b|, 1
  {
    hide Text, WellFormed, Lands;
    var c := if |b| > 0 then b[0] else '\0';
    if Starts(b, v) {
      FirstChar(v);
    }
    if c == 'i' {
      n, t := DecodeInt(b, v);
    } else if c == 'd' {
      n, t := DecodeDict(b, keys, v);
    } else if c == 'l' {
      n, t := DecodeList(b, keys, v);
    } else {
      var start, len;
      ghost var s;
      n, start, len, s := BufStr(b, v);
      t := if n > 0 then Some(s) else None;
    }
  }

  method DecodeInt(b: string, ghost v: Tree) returns (n: nat, ghost t: Option<Tree>)
    ensures n <= |b| && (t.Some? <==> n > 0) && (t.Some? ==> Starts(b, t.value) && n == |Text(t.value)|)
    ensures Starts(b, v) && v.Int? ==> t == Some(v)
  {
    var value;
    n, value := BufInt(b, Some('i'), 'e');
    t := None;
    if Starts(b, v) && v.Int? {
      var m := |v.digits| + 2;
      assert b[1..m - 1] == Text(v)[1..m - 1] == v.digits;
      assert IntAt(b, Some('i'), 'e', m);
    }
    if n > 0 {
      t := Some(Int(b[1..n - 1]));
      assert Text(t.value) == ['i'] + b[1..n - 1] + ['e'] == b[..n];
    }
  }

  /** A part of a text is at its place. */
  lemma Inside(b: string, x: string, y: string, z: string)
    requires x + y + z <= b
    ensures |x| <= |b| && y <= b[|x|..] && |y| + |z| <= |b[|x|..]| && (z != "" ==> b[|x| + |y|] == z[0])
  {
    assert b[..|x + y + z|] == x + y + z;
    assert b[|x|..][..|y|] == y;
  }

  lemma Grow(b: string, p: nat, y: string)
    requires p <= |b| && y <= b[p..]
    ensures p + |y| <= |b| && b[..p + |y|] == b[..p] + y
  {
    assert b[..p + |y|] == b[..p] + b[p..][..|y|];
  }

  /** Where item `k` of a list is. */
  lemma ListPlace(b: string, v: Tree, k: nat)
    requires v.List? && Starts(b, v) && k <= |v.items|
    ensures var p := 1 + |TextAll(v.items[..k])|;
      && p < |b| && (k == |v.items| <==> b[p] == 'e') && (k == |v.items| ==> p + 1 == |Text(v)|)
      && (k < |v.items| ==> Starts(b[p..], v.items[k]) && 2 <= |b[p..]|)
  {
    var before := "l" + TextAll(v.items[..k]);
    if k < |v.items| {
      var y, z := Text(v.items[k]), TextAll(v.items[k + 1..]) + "e";
      FirstChar(v.items[k]);
      ListParts(v, k);
      hide *;
      Inside(b, before, y, z);
    } else {
      assert v.items[..k] == v.items;
    }
  }

  lemma ListParts(v: Tree, k: nat)
    requires v.List? && k < |v.items|
    ensures Text(v) == "l" + TextAll(v.items[..k]) + Text(v.items[k]) + (TextAll(v.items[k + 1..]) + "e")
  {
    TextAllNext(v.items, k);
  }

  /** The items of a list up to place `ll`. */
  ghost predicate ListSoFar(b: string, v: Tree, ll: nat, items: seq<Tree>) {
    && 1 <= ll <= |b| && b[..ll] == "l" + TextAll(items) && (forall i :: 0 <= i < |items| ==> WellFormed(items[i]))
    && (Starts(b, v) ==> v.List? && |items| <= |v.items| && items == v.items[..|items|])
  }

  /** What is to come next if the text starts with `v`. */
  lemma ListNext(b: string, v: Tree, ll: nat, items: seq<Tree>) returns (w: Tree)
    requires ListSoFar(b, v, ll, items) && ll < |b| && b[ll] != 'e'
    ensures Starts(b, v) ==> v.List? && |items| < |v.items| && w == v.items[|items|] && Starts(b[ll..], w) && 2 <= |b[ll..]|
  {
    w := v;
    if Starts(b, v) {
      ListPlace(b, v, |items|);
      w := v.items[|items|];
    }
  }

  lemma ListMore(b: string, v: Tree, ll: nat, items: seq<Tree>, item: Tree)
    requires ListSoFar(b, v, ll, items) && Starts(b[ll..], item)
    requires Starts(b, v) ==> |items| < |v.items| && item == v.items[|items|]
    ensures ListSoFar(b, v, ll + |Text(item)|, items + [item])
  {
    hide Text, TextAll, WellFormed;
    var more := items + [item];
    TextAllNext(more, |items|);
    assert more[..|items|] == items && more[..|items| + 1] == more;
    Grow(b, ll, Text(item));
  }

  lemma ListEnd(b: string, v: Tree, ll: nat, items: seq<Tree>)
    requires ListSoFar(b, v, ll, items) && (ll < |b| ==> b[ll] == 'e')
    ensures Starts(b, v) ==> ll < |b| && v == List(items)
    ensures ll < |b| ==> Starts(b, List(items)) && |Text(List(items))| == ll + 1
  {
    if Starts(b, v) {
      ListPlace(b, v, |items|);
      assert v.items[..|v.items|] == v.items;
    }
    if ll < |b| {
      assert b[..ll + 1] == b[..ll] + ['e'];
    }
  }

  method DecodeList(b: string, keys: Option<string>, ghost v: Tree) returns (n: nat, ghost t: Option<Tree>)
    ensures if "l" <= b then Decoded(b, keys, v, n, t) else n == 0 && t == None
    ensures keys.None? && v.List? && Starts(b, v) ==> n == |Text(v)|
    decreases |b|, 0
  {
    hide Text, WellFormed, Lands, ListSoFar, TextAll;
    n, t := 0, None;
    if Starts(b, v) {
      FirstChar(v);
    }
    if |b| < 2 || b[0] != 'l' {
      return;
    }
    var ll := 1;
    ghost var items: seq<Tree> := [];
    ListStart(b, v);
    while ll < |b| && b[ll] != 'e'
      invariant 1 <= ll <= |b| && (keys.None? ==> ListSoFar(b, v, ll, items))
      decreases |b| - ll
    {
      ghost var w := v;
      if keys.None? {
        w := ListNext(b, v, ll, items);
      }
      var rl;
      ghost var item;
      rl, item := DecodeRev(b[ll..], keys, w);
      if rl == 0 {
        return;
      }
      if keys.None? {
        ListMore(b, v, ll, items, item.value);
        items := items + [item.value];
      }
      ll := ll + rl;
    }
    if keys.None? {
      ListEnd(b, v, ll, items);
    }
    if ll < |b| {
      n := ll + 1;
      t := if keys.None? then Some(List(items)) else None;
    }
  }

  lemma ListStart(b: string, v: Tree)
    requires |b| >= 2 && b[0] == 'l'
    ensures ListSoFar(b, v, 1, [])
  {
    if Starts(b, v) {
      FirstChar(v);
    }
    assert b[..1] == "l";
  }

  predicate Entries(entries: seq<Entry>) {
    forall i :: 0 <= i < |entries| ==>
      && entries[i].key.Str? && |entries[i].key.body| <= KEYNAME_SIZ
      && WellFormed(entries[i].key) && WellFormed(entries[i].value)
  }

  /** Where entry `k` of a dictionary is. */
  lemma DictPlace(b: string, v: Tree, k: nat)
    requires v.Dict? && Starts(b, v) && k <= |v.entries|
    ensures var p := 1 + |TextEntries(v.entries[..k])|;
      && p < |b| && (k == |v.entries| <==> b[p] == 'e') && (k == |v.entries| ==> p + 1 == |Text(v)|)
      && (k < |v.entries| ==>
        var e := v.entries[k];
        var q := p + |Text(e.key)|;
        && e.key.Str? && |e.key.body| <= KEYNAME_SIZ && Starts(b[p..], e.key) && 2 <= |b[p..]| && Text(e.key) != ""
        && q < |b| && Starts(b[q..], e.value) && |b[q..]| > |Text(e.value)| > 0)
  {
    var before := "d" + TextEntries(v.entries[..k]);
    if k < |v.entries| {
      var e, later := v.entries[k], TextEntries(v.entries[k + 1..]) + "e";
      FirstChar(e.key);
      FirstChar(e.value);
      DictParts(v, k);
      assert Text(v) <= b;
      hide *;
      Inside(b, before, Text(e.key), Text(e.value) + later);
      Inside(b, before + Text(e.key), Text(e.value), later);
    } else {
      assert v.entries[..k] == v.entries;
    }
  }

  lemma DictParts(v: Tree, k: nat)
    requires v.Dict? && k < |v.entries|
    ensures var before, e, later := "d" + TextEntries(v.entries[..k]), v.entries[k], TextEntries(v.entries[k + 1..]) + "e";
      && Text(v) == before + Text(e.key) + (Text(e.value) + later)
      && Text(v) == (before + Text(e.key)) + Text(e.value) + later
  {
    var e := v.entries[k];
    TextEntriesNext(v.entries, k);
    assert Text(v) == "d" + TextEntries(v.entries) + "e";
    assert TextEntry(e) == Text(e.key) + Text(e.value);
    hide Text, TextEntries, TextEntry;
    InDict(TextEntries(v.entries[..k]), Text(e.key), Text(e.value), TextEntries(v.entries[k + 1..]));
  }

  lemma InDict(a: string, b: string, c: string, d: string)
    ensures "d" + (a + (b + c) + d) + "e" == ("d" + a) + b + (c + (d + "e"))
    ensures "d" + (a + (b + c) + d) + "e" == (("d" + a) + b) + c + (d + "e")
  {
  }

  /** The entries of a dictionary up to place `dl`, none of which has the key that is sought. */
  ghost predicate DictSoFar(b: string, keys: Option<string>, v: Tree, dl: nat, entries: seq<Entry>) {
    && 1 <= dl <= |b| && b[..dl] == "d" + TextEntries(entries) && Entries(entries)
    && (keys.Some? ==> forall i :: 0 <= i < |entries| ==> !Matches(entries[i].key.body, keys.value))
    && (Starts(b, v) ==> v.Dict? && |entries| <= |v.entries| && entries == v.entries[..|entries|])
  }

  lemma DictStart(b: string, keys: Option<string>, v: Tree)
    requires |b| >= 2 && b[0] == 'd'
    ensures DictSoFar(b, keys, v, 1, [])
  {
    if Starts(b, v) {
      FirstChar(v);
    }
    assert b[..1] == "d";
  }

  /** What is to come next if the text starts with `v`. */
  lemma DictNext(b: string, keys: Option<string>, v: Tree, dl: nat, entries: seq<Entry>) returns (e: Entry)
    requires DictSoFar(b, keys, v, dl, entries) && dl < |b| && b[dl] != 'e'
    ensures Starts(b, v) ==>
      && v.Dict? && |entries| < |v.entries| && e == v.entries[|entries|]
      && e.key.Str? && |e.key.body| <= KEYNAME_SIZ && Starts(b[dl..], e.key) && 2 <= |b[dl..]| && Text(e.key) != ""
      && dl + |Text(e.key)| < |b| && Starts(b[dl + |Text(e.key)|..], e.value)
      && |b[dl + |Text(e.key)|..]| > |Text(e.value)| > 0
  {
    e := Entry(v, v);
    if Starts(b, v) {
      DictPlace(b, v, |entries|);
      e := v.entries[|entries|];
    }
  }

  lemma DictMore(b: string, keys: Option<string>, v: Tree, dl: nat, entries: seq<Entry>, e: Entry)
    requires DictSoFar(b, keys, v, dl, entries) && e.key.Str? && |e.key.body| <= KEYNAME_SIZ
    requires Starts(b[dl..], e.key) && Starts(b[dl + |Text(e.key)|..], e.value)
    requires keys.Some? ==> !Matches(e.key.body, keys.value)
    requires Starts(b, v) ==> |entries| < |v.entries| && e == v.entries[|entries|]
    ensures DictSoFar(b, keys, v, dl + |Text(e.key)| + |Text(e.value)|, entries + [e])
  {
    hide Text, WellFormed, Entries, Matches;
    EntriesMore(entries, e);
    Grow(b, dl, Text(e.key));
    Grow(b, dl + |Text(e.key)|, Text(e.value));
  }

  lemma EntriesMore(entries: seq<Entry>, e: Entry)
    requires Entries(entries) && e.key.Str? && |e.key.body| <= KEYNAME_SIZ && WellFormed(e.key) && WellFormed(e.value)
    ensures Entries(entries + [e]) && TextEntries(entries + [e]) == TextEntries(entries) + (Text(e.key) + Text(e.value))
  {
    hide Text, WellFormed;
    var more := entries + [e];
    TextEntriesNext(more, |entries|);
    assert more[..|entries|] == entries && more[..|entries| + 1] == more;
  }

  lemma DictEnd(b: string, keys: Option<string>, v: Tree, dl: nat, entries: seq<Entry>)
    requires DictSoFar(b, keys, v, dl, entries) && (dl < |b| ==> b[dl] == 'e')
    ensures Starts(b, v) ==> dl < |b| && v == Dict(entries)
    ensures Starts(b, v) && keys.Some? ==> Lands(b, v, keys.value, 0)
    ensures dl < |b| ==> Starts(b, Dict(entries)) && |Text(Dict(entries))| == dl + 1
  {
    if Starts(b, v) {
      DictPlace(b, v, |entries|);
      assert v.entries[..|v.entries|] == v.entries;
      if keys.Some? {
        LookupLater(v.entries, keys.value, |entries|);
      }
    }
    if dl < |b| {
      assert b[..dl + 1] == b[..dl] + ['e'];
    }
  }

  /** The key of entry `e`, whose value starts at `dl`, has been found: this is it, or the way to it. */
  method Descend(b: string, keys: string, ghost v: Tree, dl: nat, ghost dl0: nat, ghost entries: seq<Entry>, ghost e: Entry)
    returns (n: nat)
    requires 0 < dl <= |b| && DictSoFar(b, Some(keys), v, dl0, entries)
    requires Starts(b, v) ==>
      && v.Dict? && |entries| < |v.entries| && e == v.entries[|entries|] && e.key.Str? && Matches(e.key.body, keys)
      && Starts(b[dl..], e.value) && |b[dl..]| > |Text(e.value)| > 0
    ensures n <= |b| && (Starts(b, v) ==> v.Dict? && Lands(b, v, keys, n))
    decreases |b|, 0, 0
  {
    hide Text, WellFormed;
    if Starts(b, v) {
      LookupLater(v.entries, keys, |entries|);
      assert v.entries[|entries|..][0] == e;
    }
    var rest := NextKey(keys);
    if rest == "" {
      return dl;
    }
    if Starts(b[dl..], e.value) {
      FirstChar(e.value);
    }
    var rl;
    ghost var t;
    rl, t := DecodeDict(b[dl..], Some(rest), e.value);
    if rl == 0 {
      return 0;
    }
    n := dl + rl;
    assert b[dl..][rl..] == b[n..];
  }

  lemma SliceOf(b: string, p: nat, i: nat, j: nat)
    requires p <= |b| && i <= j <= |b[p..]|
    ensures b[p..][i..j] == b[p + i..p + j]
  {
  }

  method DecodeDict(b: string, keys: Option<string>, ghost v: Tree) returns (n: nat, ghost t: Option<Tree>)
    ensures if "d" <= b then Decoded(b, keys, v, n, t) else n == 0 && t == None
    ensures keys.None? && v.Dict? && Starts(b, v) ==> n == |Text(v)|
    decreases |b|, 0, 1
  {
    hide Text, WellFormed, DictSoFar, TextEntries, Matches, Lookup, Lands;
    n, t := 0, None;
    if Starts(b, v) {
      FirstChar(v);
    }
    if |b| < 2 || b[0] != 'd' {
      return;
    }
    var dl := 1;
    ghost var entries: seq<Entry> := [];
    DictStart(b, keys, v);
    while dl < |b| && b[dl] != 'e'
      invariant 1 <= dl <= |b| && DictSoFar(b, keys, v, dl, entries)
      decreases |b| - dl
    {
      ghost var e := DictNext(b, keys, v, dl, entries);
      var rl, start, len;
      ghost var key;
      rl, start, len, key := BufStr(b[dl..], e.key);
      if rl == 0 || KEYNAME_SIZ < len {
        return;
      }
      ghost var at := dl;
      SliceOf(b, dl, start, rl);
      dl := dl + rl;
      if keys.Some? {
        var r := CompareKey(b[dl - len..dl], keys.value);
        if r == 0 {
          n := Descend(b, keys.value, v, dl, at, entries, e);
          return;
        }
      }
      ghost var value;
      rl, value := DecodeRev(b[dl..], None, e.value);
      if rl == 0 {
        return;
      }
      DictMore(b, keys, v, at, entries, Entry(key, value.value));
      entries := entries + [Entry(key, value.value)];
      dl := dl + rl;
    }
    DictEnd(b, keys, v, dl, entries);
    if dl == |b| || keys.Some? {
      return;
    }
    n, t := dl + 1, Some(Dict(entries));
  }

  const KEYNAME_LISTSIZ := 256

  datatype Query = QueryStr | QueryInt | QueryPos

  /** What a query gives: how far it got, and the number, or the place and length of a string or an item. */
  datatype Answer = Answer(r: nat, number: nat, start: nat, len: nat)

  /** The answer is item `w` of the text, if it is of the kind that is asked for. */
  ghost predicate Reads(b: string, query: Query, a: Answer, w: Tree) {
    match query
    case QueryInt => if w.Int? then a.r == |Text(w)| && Digits(w.digits) && a.number == Strtoll(w.digits) else a.r == 0
    case QueryStr =>
      if w.Str? then a.r == |Text(w)| && a.len == |w.body| && a.start + a.len <= |b| && b[a.start..a.start + a.len] == w.body
      else a.r == 0
    case QueryPos => a.r > 0 && a.r + a.len <= |b| && b[a.r..a.r + a.len] == Text(w)
  }

  /** decode_query: finds the value that the key list leads to, and reads it. */
  method DecodeQuery(b: string, keys: string, query: Query, ghost v: Tree) returns (a: Answer)
    requires |keys| < KEYNAME_LISTSIZ
    ensures Starts(b, v) && v.Dict? ==>
      match Lookup(v.entries, keys)
      case None => a.r == 0
      case Some(w) => Reads(b, query, a, w)
  {
    hide Text, WellFormed, Lookup, Reads;
    var pos;
    ghost var t;
    pos, t := DecodeRev(b, Some(keys), v);
    if pos == 0 {
      return Answer(0, 0, 0, 0);
    }
    ghost var w := if Starts(b, v) && v.Dict? then Lookup(v.entries, keys).value else v;
    if Starts(b[pos..], w) {
      FirstChar(w);
    }
    a := ReadAt(b, pos, query, w);
  }

  method ReadAt(b: string, pos: nat, query: Query, ghost w: Tree) returns (a: Answer)
    requires 0 < pos <= |b|
    ensures Starts(b[pos..], w) && 2 <= |b[pos..]| ==> Reads(b, query, a, w)
  {
    hide Text, WellFormed;
    if Starts(b[pos..], w) {
      FirstChar(w);
    }
    match query {
      case QueryStr =>
        ghost var s;
        var r, start, len;
        r, start, len, s := BufStr(b[pos..], w);
        if r > 0 {
          FirstChar(s);
          assert b[pos..][start..start + len] == b[pos + start..pos + start + len];
        }
        a := Answer(r, 0, pos + start, len);
      case QueryInt =>
        var r, number := BufInt(b[pos..], Some('i'), 'e');
        IntWhere(b[pos..], w);
        a := Answer(r, number, 0, 0);
      case QueryPos =>
        var len;
        ghost var u;
        len, u := DecodeRev(b[pos..], None, w);
        assert b[pos..][..len] == b[pos..pos + len];
        a := Answer(pos, 0, pos, len);
    }
  }

  /** A text that starts with an integer of its own kind. */
  lemma IntWhere(b: string, w: Tree)
    ensures Starts(b, w) && w.Int? ==>
      IntAt(b, Some('i'), 'e', |Text(w)|) && b[1..|Text(w)| - 1] == w.digits && Digits(w.digits)
    ensures Starts(b, w) && !w.Int? ==> forall m :: !IntAt(b, Some('i'), 'e', m)
  {
    if Starts(b, w) {
      FirstChar(w);
      if w.Int? {
        assert b[1..|Text(w)| - 1] == Text(w)[1..|Text(w)| - 1] == w.digits;
      }
    }
  }
}
