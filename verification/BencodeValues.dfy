/** The values that the program prints, and how it prints them (bencode.cpp). */
module BencodeValues {
  import opened BencodeText
  import opened Options

  /** The values of the data model: numbers that are not negative, strings, lists and dictionaries. */
  datatype Value =
    | Num(n: nat)
    | Chars(s: string)
    | Seq(items: seq<Value>)
    | Map(entries: seq<Pair>)

  datatype Pair = Pair(key: string, value: Value)

  function Digit(d: nat): char
    requires d < 10
  {
    ('0' as int + d) as char
  }

  /** The shortest row of digits for a number. */
  function Decimal(n: nat): (s: string)
    ensures s != ""
  {
    (if n < 10 then "" else Decimal(n / 10)) + [Digit(n % 10)]
  }

  lemma {:induction false} DecimalNumber(n: nat)
    ensures Digits(Decimal(n)) && Number(Decimal(n)) == n
  {
    if n >= 10 {
      DecimalNumber(n / 10);
    } else {
      assert Number("") == 0;
    }
    var s := Decimal(n);
    assert s[..|s| - 1] == if n < 10 then "" else Decimal(n / 10);
  }

  function Pow10(k: nat): nat {
    if k == 0 then 1 else 10 * Pow10(k - 1)
  }

  lemma {:induction false} DecimalLength(n: nat, k: nat)
    requires k > 0 && n < Pow10(k)
    ensures |Decimal(n)| <= k
  {
    if n >= 10 {
      DecimalLength(n / 10, k - 1);
    }
  }

  function Form(v: Value): Tree
    decreases v
  {
    match v
    case Num(n) => Int(Decimal(n))
    case Chars(s) => StrTree(s)
    case Seq(items) => List(Trees(items))
    case Map(entries) => Dict(EntryTrees(entries))
  }

  function StrTree(s: string): Tree {
    Str(Decimal(|s|), s)
  }

  function Trees(items: seq<Value>): (r: seq<Tree>)
    ensures |r| == |items| && forall i :: 0 <= i < |r| ==> r[i] == Form(items[i])
    decreases items
  {
    if items == [] then [] else [Form(items[0])] + Trees(items[1..])
  }

  function EntryTree(p: Pair): Entry
    decreases p
  {
    Entry(StrTree(p.key), Form(p.value))
  }

  function EntryTrees(entries: seq<Pair>): (r: seq<Entry>)
    ensures |r| == |entries| && forall i :: 0 <= i < |r| ==> r[i] == EntryTree(entries[i])
    decreases entries
  {
    if entries == [] then [] else [EntryTree(entries[0])] + EntryTrees(entries[1..])
  }

  /** What the printers print and the decoder reads: numbers of 64 bits, and keys of at most 32 characters. */
  predicate Printable(v: Value)
    decreases v
  {
    match v
    case Num(n) => n <= INT64_MAX
    case Chars(s) => 0 < |s| <= 0x7FFF_FFFF
    case Seq(items) => forall i :: 0 <= i < |items| ==> Printable(items[i])
    case Map(entries) => forall i :: 0 <= i < |entries| ==> PrintablePair(entries[i])
  }

  predicate PrintablePair(p: Pair)
    decreases p
  {
    0 < |p.key| <= KEYNAME_SIZ && '|' !in p.key && Printable(p.value)
  }

  lemma DecimalShort(n: nat)
    requires n <= INT64_MAX + 1
    ensures |Decimal(n)| <= 20
  {
    assert Pow10(5) == 100000;
    assert Pow10(10) == 100000 * Pow10(5);
    assert Pow10(15) == 100000 * Pow10(10);
    assert Pow10(20) == 100000 * Pow10(15);
    DecimalLength(n, 20);
  }

  lemma NumberPrinted(n: nat)
    requires n <= INT64_MAX
    ensures NumberText(Decimal(n)) && Strtoll(Decimal(n)) == n
  {
    DecimalNumber(n);
    DecimalShort(n);
  }

  lemma {:induction false} Printed(v: Value)
    requires Printable(v)
    ensures WellFormed(Form(v))
    decreases v
  {
    match v
    case Num(n) => NumberPrinted(n);
    case Chars(s) => NumberPrinted(|s|);
    case Seq(items) =>
      forall i | 0 <= i < |items| ensures WellFormed(Trees(items)[i]) {
        Printed(items[i]);
      }
    case Map(entries) =>
      forall i | 0 <= i < |entries| ensures var e := EntryTrees(entries)[i];
        e.key.Str? && |e.key.body| <= KEYNAME_SIZ && WellFormed(e.key) && WellFormed(e.value)
      {
        PrintedPair(entries[i]);
      }
  }

  lemma {:induction false} PrintedPair(p: Pair)
    requires PrintablePair(p)
    ensures WellFormed(StrTree(p.key)) && WellFormed(Form(p.value))
    decreases p
  {
    NumberPrinted(|p.key|);
    Printed(p.value);
  }

  /** What is under a path of keys: in each dictionary the first entry with the key counts. */
  function Walk(v: Value, path: seq<string>): Option<Value>
    decreases |path|
  {
    if path == [] then Some(v)
    else if v.Map? then
      var i := FindKey(v.entries, path[0]);
      if i < |v.entries| then Walk(v.entries[i].value, path[1..]) else None
    else None
  }

  function FindKey(entries: seq<Pair>, key: string): (i: nat)
    ensures i <= |entries| && (i < |entries| ==> entries[i].key == key)
    ensures forall j :: 0 <= j < i ==> entries[j].key != key
  {
    if entries == [] then 0 else if entries[0].key == key then 0 else 1 + FindKey(entries[1..], key)
  }

  /** A path of keys as the key list of a query. */
  function Join(path: seq<string>): string {
    if path == [] then "" else if |path| == 1 then path[0] else path[0] + "|" + Join(path[1..])
  }

  predicate PathKeys(path: seq<string>) {
    forall i :: 0 <= i < |path| ==> path[i] != "" && '|' !in path[i]
  }

  /** A dictionary with a number and a list of a string, character by character (BEP 3, bencoding). */
  lemma Sample(v: Value)
    requires v == Map([Pair("a", Num(42)), Pair("b", Seq([Chars("xyz")]))])
    ensures Text(Form(v)) == "d1:ai42e1:bl3:xyzee"
  {
    hide EntryTree, TextEntry, EntryTrees, TextEntries, Decimal;
    SampleNumber(v.entries[0]);
    SampleList(v.entries[1]);
    TwoEntries(v.entries[0], v.entries[1]);
    assert v.entries == [v.entries[0], v.entries[1]];
  }

  lemma TwoEntries(a: Pair, b: Pair)
    ensures TextEntries(EntryTrees([a, b])) == TextEntry(EntryTree(a)) + TextEntry(EntryTree(b))
  {
    hide EntryTree, TextEntry;
    assert [a, b][1..] == [b] && [b][1..] == [];
    var x, y := EntryTree(a), EntryTree(b);
    assert EntryTrees([a, b]) == [x, y] && [x, y][1..] == [y] && [y][1..] == [];
    assert TextEntries([y]) == TextEntry(y) + "" == TextEntry(y);
    assert TextEntries([x, y]) == TextEntry(x) + TextEntries([y]);
  }

  lemma SampleNumbers()
    ensures Decimal(42) == "42" && Decimal(1) == "1" && Decimal(3) == "3"
  {
    assert Decimal(4) == "4";
  }

  lemma SampleNumber(p: Pair)
    requires p == Pair("a", Num(42))
    ensures TextEntry(EntryTree(p)) == "1:ai42e"
  {
    SampleNumbers();
  }

  lemma SampleList(p: Pair)
    requires p == Pair("b", Seq([Chars("xyz")]))
    ensures TextEntry(EntryTree(p)) == "1:bl3:xyze"
  {
    SampleNumbers();
    var items := [Chars("xyz")];
    assert items[1..] == [] && Trees(items) == [Form(items[0])];
    assert Text(Form(items[0])) == "3:xyz";
    assert TextAll([Form(items[0])]) == "3:xyz" by {
      assert [Form(items[0])][1..] == [];
    }
  }
}
