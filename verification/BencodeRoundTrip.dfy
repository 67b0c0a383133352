/** What is printed is what is read: values, queries into them, and file paths. */
module BencodeRoundTrip {
  import opened BencodeText
  import opened BencodeValues
  import opened Bencode
  import opened BencodeQuery
  import opened BencodePrint
  import opened BencodePath
  import opened Options

  lemma StartsPrinted(v: Value, rest: string)
    requires Printable(v)
    ensures Starts(Text(Form(v)) + rest, Form(v)) && |Text(Form(v))| >= 2
  {
    Printed(v);
    FirstChar(Form(v));
    if v.Chars? {
      assert |Text(Form(v))| == |Decimal(|v.s|)| + 1 + |v.s|;
    }
  }

  /** Decoding a printed value, whatever follows it, takes exactly its text. */
  method PrintAndDecode(v: Value, rest: string) returns (n: nat)
    requires Printable(v)
    ensures n == |Text(Form(v))|
  {
    hide Text, Form, WellFormed;
    var out := new Output();
    var _ := out.Print(v);
    StartsPrinted(v, rest);
    ghost var t;
    n, t := DecodeRev(out.data + rest, None, Form(v));
  }

  /** The answer is value `w`, if it is of the kind that is asked for. */
  ghost predicate Gives(b: string, query: Query, a: Answer, w: Value) {
    match query
    case QueryInt => if w.Num? then a.r == |Text(Form(w))| && a.number == w.n else a.r == 0
    case QueryStr =>
      if w.Chars? then a.r == |Text(Form(w))| && a.start + a.len <= |b| && b[a.start..a.start + a.len] == w.s
      else a.r == 0
    case QueryPos => a.r > 0 && a.r + a.len <= |b| && b[a.r..a.r + a.len] == Text(Form(w))
  }

  /** A query finds what is under the path, and reads it. */
  method PrintAndQuery(v: Value, rest: string, path: seq<string>, query: Query) returns (a: Answer)
    requires Printable(v) && v.Map? && path != [] && PathKeys(path) && |Join(path)| < KEYNAME_LISTSIZ
    ensures match Walk(v, path)
      case None => a.r == 0
      case Some(w) => Gives(Text(Form(v)) + rest, query, a, w)
  {
    hide Text, WellFormed, Lookup, Walk, Reads, Gives, Join, EntryTrees;
    var out := new Output();
    var _ := out.Print(v);
    StartsPrinted(v, rest);
    assert out.data == Text(Form(v));
    a := DecodeQuery(out.data + rest, Join(path), query, Form(v));
    LookupIsWalk(v.entries, path);
    assert Map(v.entries) == v && Form(v) == Dict(EntryTrees(v.entries));
    if Walk(v, path).Some? {
      Walked(v, path);
      ReadsGives(out.data + rest, query, a, Walk(v, path).value);
    }
  }

  lemma ReadsGives(b: string, query: Query, a: Answer, w: Value)
    requires Printable(w) && Reads(b, query, a, Form(w))
    ensures Gives(b, query, a, w)
  {
    hide Text, Strtoll;
    if w.Num? {
      NumberPrinted(w.n);
    }
  }

  lemma {:induction false} Walked(v: Value, path: seq<string>)
    requires Printable(v) && Walk(v, path).Some?
    ensures Printable(Walk(v, path).value)
    decreases |path|
  {
    if path != [] {
      var i := FindKey(v.entries, path[0]);
      assert PrintablePair(v.entries[i]);
      Walked(v.entries[i].value, path[1..]);
    }
  }

  /** A file path that is written as a list of names is read back, up to a separator at its end. */
  method WriteAndReadPath(path: string, rest: string, maxlen: nat) returns (again: string, top: nat)
    requires path != "" && |path| < maxlen && |path| <= INT32_MAX && NoneEmpty(Components(path))
    ensures again == Trimmed(path) && top <= maxlen
  {
    hide Text, Form, WellFormed, Components, Joined;
    var out := new Output();
    var _ := Path2List(out, path);
    ghost var names := Components(path);
    JoinComponents(path);
    NamesPrintable(path);
    StartsPrinted(Names(names), rest);
    var n;
    FittingCopied(names, maxlen);
    BodiesOf(names);
    n, again, top := List2Path(out.data + rest, maxlen, NameTrees(names));
  }

  lemma NamesPrintable(path: string)
    requires NoneEmpty(Components(path)) && |path| <= INT32_MAX
    ensures Printable(Names(Components(path)))
  {
    hide Components;
    Shorter(path);
    ShortNames(Components(path));
  }

  lemma ShortNames(names: seq<string>)
    requires NoneEmpty(names) && forall i :: 0 <= i < |names| ==> |names[i]| <= INT32_MAX
    ensures Printable(Names(names))
  {
    var v := Names(names);
    forall i | 0 <= i < |v.items| ensures Printable(v.items[i]) {
      assert v.items[i] == Chars(names[i]);
    }
  }

  lemma {:induction false} Shorter(path: string)
    ensures forall i :: 0 <= i < |Components(path)| ==> |Components(path)[i]| <= |path|
    decreases |path|
  {
    var n := First(path);
    if n < |path| {
      Shorter(path[n + 1..]);
    }
  }
}
