/** The printers of bencode.cpp. */
module BencodePrint {
  import opened BencodeText
  import opened BencodeValues

  const INT32_MAX := 0x7FFF_FFFF

  function Signed(i: int): string {
    if i < 0 then "-" + Decimal(-i) else Decimal(i)
  }

  /** The output, to which writing succeeds; a write of no bytes is reported as a failure, as fwrite does. */
  class Output {
    var data: string

    constructor ()
      ensures data == ""
    {
      data := "";
    }

    method Write(s: string) returns (ok: bool)
      modifies this
      ensures data == old(data) + s && (ok <==> s != "")
    {
      data := data + s;
      ok := s != "";
    }

    /** bencode_buf */
    method PutBuf(s: string) returns (ok: bool)
      requires |s| <= INT32_MAX
      modifies this
      ensures data == old(data) + Text(StrTree(s)) && (ok <==> s != "")
    {
      var len := Decimal(|s|) + ":";
      DecimalShort(|s|);
      if MAX_INT_SIZ <= |len| {
        return false;
      }
      ok := Write(len);
      if !ok {
        return;
      }
      ok := Write(s);
      assert old(data) + len + s == old(data) + (Decimal(|s|) + ":" + s);
    }

    /** bencode_int */
    method PutInt(i: int) returns (ok: bool)
      requires -INT64_MAX - 1 <= i <= INT64_MAX
      modifies this
      ensures ok && data == old(data) + "i" + Signed(i) + "e"
    {
      data := data + "i";
      var digits := Signed(i);
      DecimalShort(if i < 0 then -i else i);
      if MAX_INT_SIZ <= |digits| {
        return false;
      }
      ok := Write(digits);
      if !ok {
        return;
      }
      data := data + "e";
      ok := true;
    }

    method BeginDict()
      modifies this
      ensures data == old(data) + "d"
    {
      data := data + "d";
    }

    method BeginList()
      modifies this
      ensures data == old(data) + "l"
    {
      data := data + "l";
    }

    method EndDictList()
      modifies this
      ensures data == old(data) + "e"
    {
      data := data + "e";
    }

    /** A whole value, by the printers of its parts. */
    method Print(v: Value) returns (ok: bool)
      requires Printable(v)
      modifies this
      ensures ok && data == old(data) + Text(Form(v))
      decreases v
    {
      match v {
        case Num(n) =>
          ok := PutInt(n);
        case Chars(s) =>
          ok := PutBuf(s);
        case Seq(items) =>
          BeginList();
          PrintAll(items);
          EndDictList();
          ok := true;
        case Map(entries) =>
          BeginDict();
          PrintEntries(entries);
          EndDictList();
          ok := true;
      }
    }

    method PrintAll(items: seq<Value>)
      requires forall i :: 0 <= i < |items| ==> Printable(items[i])
      modifies this
      ensures data == old(data) + TextAll(Trees(items))
      decreases items
    {
      hide Text, Form, Printable;
      ghost var trees := Trees(items);
      for i := 0 to |items|
        invariant data == old(data) + TextAll(trees[..i])
      {
        TextAllNext(trees, i);
        var _ := Print(items[i]);
      }
      assert trees[..|items|] == trees;
    }

    /** A key and its value. */
    method PrintPair(p: Pair)
      requires PrintablePair(p)
      modifies this
      ensures data == old(data) + TextEntry(EntryTree(p))
      decreases p
    {
      hide Text, Form, Printable;
      var _ := PutBuf(p.key);
      var _ := Print(p.value);
    }

    method PrintEntries(entries: seq<Pair>)
      requires forall i :: 0 <= i < |entries| ==> PrintablePair(entries[i])
      modifies this
      ensures data == old(data) + TextEntries(EntryTrees(entries))
      decreases entries
    {
      hide Text, TextEntry, Form, Printable;
      ghost var trees := EntryTrees(entries);
      for i := 0 to |entries|
        invariant data == old(data) + TextEntries(trees[..i])
      {
        TextEntriesNext(trees, i);
        PrintPair(entries[i]);
      }
      assert trees[..|entries|] == trees;
    }
  }
}
