/** The bencoded texts that the decoder accepts, as trees, and the values that the program prints (BEP 3, bencoding). */
module BencodeText {
  const MAX_INT_SIZ := 64
  const KEYNAME_SIZ := 32
  const INT64_MAX := 0x7FFF_FFFF_FFFF_FFFF

  predicate IsDigit(c: char) {
    '0' <= c <= '9'
  }

  predicate Digits(s: string) {
    forall i :: 0 <= i < |s| ==> IsDigit(s[i])
  }

  /** The number that a row of digits stands for. */
  function Number(s: string): nat
    requires Digits(s)
  {
    if s == "" then 0 else 10 * Number(s[..|s| - 1]) + (s[|s| - 1] as int - '0' as int)
  }

  /** strtoll */
  function Strtoll(s: string): nat
    requires Digits(s)
  {
    if Number(s) <= INT64_MAX then Number(s) else INT64_MAX
  }

  /** What the decoder takes for an item: integers and lengths are rows of digits, which may be empty. */
  datatype Tree =
    | Int(digits: string)
    | Str(digits: string, body: string)
    | List(items: seq<Tree>)
    | Dict(entries: seq<Entry>)

  datatype Entry = Entry(key: Tree, value: Tree)

  function Text(t: Tree): string
    decreases t
  {
    match t
    case Int(digits) => "i" + digits + "e"
    case Str(digits, body) => digits + ":" + body
    case List(items) => "l" + TextAll(items) + "e"
    case Dict(entries) => "d" + TextEntries(entries) + "e"
  }

  function TextAll(items: seq<Tree>): string
    decreases items
  {
    if items == [] then "" else Text(items[0]) + TextAll(items[1..])
  }

  function TextEntry(e: Entry): string
    decreases e
  {
    Text(e.key) + Text(e.value)
  }

  function TextEntries(entries: seq<Entry>): string
    decreases entries
  {
    if entries == [] then "" else TextEntry(entries[0]) + TextEntries(entries[1..])
  }

  predicate NumberText(digits: string) {
    Digits(digits) && |digits| <= MAX_INT_SIZ
  }

  predicate WellFormed(t: Tree)
    decreases t
  {
    match t
    case Int(digits) => NumberText(digits)
    case Str(digits, body) => NumberText(digits) && Strtoll(digits) == |body|
    case List(items) => forall i :: 0 <= i < |items| ==> WellFormed(items[i])
    case Dict(entries) => forall i :: 0 <= i < |entries| ==>
      && entries[i].key.Str? && |entries[i].key.body| <= KEYNAME_SIZ
      && WellFormed(entries[i].key) && WellFormed(entries[i].value)
  }

  lemma {:induction false} TextAllSplit(items: seq<Tree>, k: nat)
    requires k <= |items|
    ensures TextAll(items) == TextAll(items[..k]) + TextAll(items[k..])
  {
    if k > 0 {
      TextAllSplit(items[1..], k - 1);
      assert items[1..][..k - 1] == items[..k][1..] && items[1..][k - 1..] == items[k..];
    }
  }

  lemma {:induction false} TextEntriesSplit(entries: seq<Entry>, k: nat)
    requires k <= |entries|
    ensures TextEntries(entries) == TextEntries(entries[..k]) + TextEntries(entries[k..])
  {
    if k > 0 {
      TextEntriesSplit(entries[1..], k - 1);
      assert entries[1..][..k - 1] == entries[..k][1..] && entries[1..][k - 1..] == entries[k..];
    }
  }

  lemma TextAllNext(items: seq<Tree>, k: nat)
    requires k < |items|
    ensures TextAll(items[..k + 1]) == TextAll(items[..k]) + Text(items[k])
    ensures TextAll(items) == TextAll(items[..k]) + Text(items[k]) + TextAll(items[k + 1..])
  {
    TextAllSplit(items[..k + 1], k);
    assert items[..k + 1][..k] == items[..k] && items[..k + 1][k..] == [items[k]];
    assert TextAll([items[k]]) == Text(items[k]);
    TextAllSplit(items, k + 1);
  }

  lemma TextEntriesNext(entries: seq<Entry>, k: nat)
    requires k < |entries|
    ensures TextEntries(entries[..k + 1]) == TextEntries(entries[..k]) + TextEntry(entries[k])
    ensures TextEntries(entries) ==
      TextEntries(entries[..k]) + TextEntry(entries[k]) + TextEntries(entries[k + 1..])
  {
    TextEntriesSplit(entries[..k + 1], k);
    assert entries[..k + 1][..k] == entries[..k] && entries[..k + 1][k..] == [entries[k]];
    assert TextEntries([entries[k]]) == TextEntry(entries[k]);
    TextEntriesSplit(entries, k + 1);
  }

  /** No item starts like the end of a list. */
  lemma FirstChar(t: Tree)
    requires WellFormed(t)
    ensures Text(t) != "" && Text(t)[0] != 'e' && (!t.Str? ==> |Text(t)| >= 2)
    ensures match t
      case Int(_) => Text(t)[0] == 'i'
      case Str(_, _) => Text(t)[0] !in {'i', 'd', 'l'}
      case List(_) => Text(t)[0] == 'l'
      case Dict(_) => Text(t)[0] == 'd'
  {
  }
}
