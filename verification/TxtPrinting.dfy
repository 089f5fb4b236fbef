/** DNS TXT data as text: what `OutputDnsTxtData` prints, and how to read it. */
module TxtPrinting {
  import opened Base
  import opened Numbers
  import opened HexText
  import opened TxtRecords

  function KeyText(key: Bytes): string {
    if key == [] then "" else [key[0] as char] + KeyText(key[1..])
  }

  function ItemText(e: TxtEntry): string {
    match (e.key, e.value)
    case (None, None) => "[]"
    case (None, Some(raw)) => "[" + HexOf(raw) + "]"
    case (Some(key), None) => KeyText(key)
    case (Some(key), Some(value)) => KeyText(key) + "=" + HexOf(value)
  }

  /** The items separated by ", ". */
  function Listed(es: seq<TxtEntry>): string {
    if es == [] then ""
    else if |es| == 1 then ItemText(es[0])
    else ItemText(es[0]) + ", " + Listed(es[1..])
  }

  lemma {:induction false} ListedSnoc(es: seq<TxtEntry>, e: TxtEntry)
    ensures Listed(es + [e]) == if es == [] then ItemText(e) else Listed(es) + ", " + ItemText(e)
  {
    hide ItemText;
    if es == [] {
      assert es + [e] == [e];
    } else {
      assert (es + [e])[1..] == es[1..] + [e];
      ListedSnoc(es[1..], e);
    }
  }

  // ---------- Reading the text ----------

  function IndexOf(s: string, c: char): (k: nat)
    ensures k <= |s| && (k < |s| ==> s[k] == c)
  {
    if s == "" || s[0] == c then 0 else 1 + IndexOf(s[1..], c)
  }

  function ReadKey(s: string): Option<Bytes> {
    if s == "" then Some([])
    else
      var rest := ReadKey(s[1..]);
      if s[0] as int >= 0x100 || rest.None? then None else Some([s[0] as int] + rest.value)
  }

  /** A bracketed item has no key; the value of any other item follows its first `=`, if it has one. */
  function ReadItem(s: string): Option<TxtEntry> {
    if s != "" && s[0] == '[' then
      if |s| >= 2 && s[|s| - 1] == ']' && HexDecode(s[1..|s| - 1]).Some? then
        Some(TxtEntry(None, HexDecode(s[1..|s| - 1])))
      else
        None
    else
      var k := IndexOf(s, '=');
      var key := ReadKey(s[..k]);
      if key.None? then None
      else if k == |s| then Some(TxtEntry(key, None))
      else if HexDecode(s[k + 1..]).None? then None
      else Some(TxtEntry(key, HexDecode(s[k + 1..])))
  }

  /** Items separated by a comma and a space. */
  function ReadItems(s: string): Option<seq<TxtEntry>>
    decreases |s|
  {
    var k := IndexOf(s, ',');
    var first := ReadItem(s[..k]);
    if first.None? then None
    else if k == |s| then Some([first.value])
    else if k + 1 == |s| || s[k + 1] != ' ' then None
    else
      var rest := ReadItems(s[k + 2..]);
      if rest.None? then None else Some([first.value] + rest.value)
  }

  function ReadText(out: string): Option<seq<TxtEntry>> {
    if |out| < 2 || out[0] != '[' || out[|out| - 1] != ']' then None
    else if |out| == 2 then Some([])
    else ReadItems(out[1..|out| - 1])
  }

  const COMMA: Byte := 44
  const BRACKET: Byte := 91

  /** An entry without key has a value; a key holds no `=` and no comma, and does not start with a bracket. */
  predicate IsPlain(e: TxtEntry) {
    match e.key
    case None => e.value.Some?
    case Some(key) => EQUALS !in key && COMMA !in key && (key == [] || key[0] != BRACKET)
  }

  /** The entries that the text determines. A single item that prints as nothing looks like no item. */
  ghost predicate ArePlain(es: seq<TxtEntry>) {
    (forall k :: 0 <= k < |es| ==> IsPlain(es[k])) && es != [TxtEntry(Some([]), None)]
  }

  lemma {:induction false} KeyReadsBack(key: Bytes)
    ensures ReadKey(KeyText(key)) == Some(key)
  {
    if key != [] {
      assert KeyText(key)[1..] == KeyText(key[1..]) && key == [key[0]] + key[1..];
      KeyReadsBack(key[1..]);
    }
  }

  lemma {:induction false} KeyChars(key: Bytes, k: nat)
    requires k < |key|
    ensures |KeyText(key)| == |key| && KeyText(key)[k] == key[k] as char
  {
    if k > 0 {
      KeyChars(key[1..], k - 1);
    } else if |key| > 1 {
      KeyChars(key[1..], 0);
    }
  }

  lemma {:induction false} IndexBefore(s: string, c: char, t: string)
    requires c !in s
    ensures IndexOf(s, c) == |s| && IndexOf(s + [c] + t, c) == |s|
  {
    if s == "" {
      assert s + [c] + t == [c] + t;
    } else {
      assert (s + [c] + t)[1..] == s[1..] + [c] + t;
      IndexBefore(s[1..], c, t);
    }
  }

  lemma KeyCharIn(key: Bytes, b: Byte)
    ensures b as char in KeyText(key) <==> b in key
  {
    var text := KeyText(key);
    forall k | 0 <= k < |key| ensures |text| == |key| && text[k] == key[k] as char {
      KeyChars(key, k);
    }
    if b in key {
      var k :| 0 <= k < |key| && key[k] == b;
      assert text[k] == b as char;
    }
  }

  lemma HexIsPlain(bytes: Bytes)
    ensures ',' !in HexOf(bytes)
  {
    var text := HexOf(bytes);
    forall k | 0 <= k < |text| ensures text[k] != ',' {
      HexChars(bytes, k);
    }
  }

  lemma IndexIn(s: string, c: char, t: string)
    requires c in s
    ensures IndexOf(s + t, c) < |s|
  {
    if s[0] != c {
      assert (s + t)[1..] == s[1..] + t && s == [s[0]] + s[1..];
      IndexIn(s[1..], c, t);
    }
  }

  /** An `=` in the key ends what is read as the key. */
  lemma SplitKey(keyText: string, key: Bytes, tail: string)
    requires '=' in keyText && keyText[0] != '[' && ReadKey(keyText) == Some(key)
    ensures ReadItem(keyText + tail).Some? ==> ReadItem(keyText + tail).value.key != Some(key)
  {
    hide ReadKey, IndexOf, HexDecode;
    var text := keyText + tail;
    IndexIn(keyText, '=', tail);
    var k := IndexOf(text, '=');
    KeyNotPrefix(keyText, k);
    assert text[..k] == keyText[..k] && text[0] == keyText[0];
  }

  lemma WholeKey(keyText: string, key: Bytes, value: Option<Bytes>)
    requires '=' !in keyText && (keyText == "" || keyText[0] != '[') && ReadKey(keyText) == Some(key)
    ensures ReadItem(if value.None? then keyText else keyText + "=" + HexOf(value.value)) ==
            Some(TxtEntry(Some(key), value))
  {
    hide HexOf, HexDecode, ReadKey, IndexOf;
    if value.None? {
      IndexBefore(keyText, '=', "");
      assert keyText[..|keyText|] == keyText;
    } else {
      var hex := HexOf(value.value);
      var text := keyText + "=" + hex;
      HexReadsBack(value.value);
      IndexBefore(keyText, '=', hex);
      assert text[..|keyText|] == keyText && text[|keyText| + 1..] == hex;
      assert text[0] == if keyText == "" then '=' else keyText[0];
    }
  }

  /** What is read of an item without a bracket in front. */
  lemma KeyedItem(key: Bytes, value: Option<Bytes>)
    requires key == [] || key[0] != BRACKET
    ensures ReadItem(ItemText(TxtEntry(Some(key), value))) == Some(TxtEntry(Some(key), value)) <==> EQUALS !in key
  {
    var keyText := KeyText(key);
    KeyCharIn(key, EQUALS);
    KeyReadsBack(key);
    if key != [] {
      KeyChars(key, 0);
    }
    hide HexOf, KeyText, ReadItem;
    if EQUALS in key {
      var tail := if value.None? then "" else "=" + HexOf(value.value);
      SplitKey(keyText, key, tail);
      Regrouped(keyText, HexOf(if value.None? then [] else value.value));
    } else {
      WholeKey(keyText, key, value);
    }
  }

  lemma Regrouped(a: string, b: string)
    ensures a + ("=" + b) == a + "=" + b && a + "" == a
  {
  }

  /** Part of a key is read as another key. */
  lemma KeyNotPrefix(text: string, k: nat)
    requires k < |text|
    ensures ReadKey(text[..k]) != ReadKey(text) || ReadKey(text).None?
  {
    KeyLength(text);
    KeyLength(text[..k]);
  }

  lemma {:induction false} KeyLength(text: string)
    ensures ReadKey(text).Some? ==> |ReadKey(text).value| == |text|
  {
    if text != "" {
      KeyLength(text[1..]);
    }
  }

  /** An item can be read back exactly when it is plain. */
  lemma ItemReadsBackIff(e: TxtEntry)
    ensures IsPlain(e) <==> ReadItem(ItemText(e)) == Some(e) && ',' !in ItemText(e)
    ensures ItemText(e) == "" <==> e == TxtEntry(Some([]), None)
  {
    hide HexOf, HexDecode, ReadKey, IndexOf;
    var text := ItemText(e);
    if e.value.Some? {
      HexReadsBack(e.value.value);
      HexIsPlain(e.value.value);
    }
    match e.key {
      case None =>
        if e.value.Some? {
          assert text[1..|text| - 1] == HexOf(e.value.value);
        }
      case Some(key) =>
        KeyCharIn(key, COMMA);
        if key != [] {
          KeyChars(key, 0);
          assert text[0] == KeyText(key)[0];
        }
        if key == [] || key[0] != BRACKET {
          KeyedItem(key, e.value);
        }
    }
  }

  function Commas(s: string): nat {
    if s == "" then 0 else (if s[0] == ',' then 1 else 0) + Commas(s[1..])
  }

  lemma {:induction false} CommasConcat(s: string, t: string)
    ensures Commas(s + t) == Commas(s) + Commas(t)
  {
    if s == "" {
      assert s + t == t;
    } else {
      assert (s + t)[1..] == s[1..] + t;
      CommasConcat(s[1..], t);
    }
  }

  lemma {:induction false} NoCommas(s: string)
    ensures Commas(s) == 0 <==> ',' !in s
    ensures IndexOf(s, ',') == |s| <==> ',' !in s
  {
    if s != "" {
      NoCommas(s[1..]);
      assert s == [s[0]] + s[1..];
    }
  }

  lemma {:induction false} CommasBefore(s: string)
    ensures Commas(s[..IndexOf(s, ',')]) == 0
  {
    if s != "" && s[0] != ',' {
      CommasBefore(s[1..]);
      var k := IndexOf(s, ',');
      assert s[..k][1..] == s[1..][..k - 1];
    }
  }

  /** As many items are read as commas separate. */
  lemma {:induction false} ItemsByCommas(s: string)
    ensures ReadItems(s).Some? ==> |ReadItems(s).value| == Commas(s) + 1
    decreases |s|
  {
    hide ReadItem, Commas, IndexOf;
    var k := IndexOf(s, ',');
    if ReadItems(s).Some? {
      CommasBefore(s);
      if k == |s| {
        assert s[..k] == s;
      } else {
        ItemsByCommas(s[k + 2..]);
        assert s == s[..k] + ("," + " " + s[k + 2..]);
        CommasConcat(s[..k], "," + " " + s[k + 2..]);
        CommaSpace(s[k + 2..]);
      }
    }
  }

  lemma CommaSpace(s: string)
    ensures Commas("," + " " + s) == 1 + Commas(s)
  {
    assert ("," + " " + s)[1..] == " " + s && (" " + s)[1..] == s;
  }

  ghost predicate HaveNoCommas(es: seq<TxtEntry>) {
    forall k :: 0 <= k < |es| ==> ',' !in ItemText(es[k])
  }

  ghost predicate ReadOneByOne(es: seq<TxtEntry>) {
    forall k :: 0 <= k < |es| ==> ReadItem(ItemText(es[k])) == Some(es[k])
  }

  lemma FirstAndRest(es: seq<TxtEntry>)
    requires es != []
    ensures es == [es[0]] + es[1..]
    ensures HaveNoCommas(es) <==> ',' !in ItemText(es[0]) && HaveNoCommas(es[1..])
    ensures ReadOneByOne(es) <==> ReadItem(ItemText(es[0])) == Some(es[0]) && ReadOneByOne(es[1..])
  {
    hide ItemText, ReadItem;
    assert forall k :: 0 < k < |es| ==> es[k] == es[1..][k - 1];
  }

  lemma ListedCons(es: seq<TxtEntry>)
    requires |es| > 1
    ensures Listed(es) == ItemText(es[0]) + ("," + " " + Listed(es[1..]))
  {
    hide ItemText;
    Assoc(ItemText(es[0]), Listed(es[1..]));
  }

  lemma Assoc(a: string, b: string)
    ensures a + ", " + b == a + ("," + " " + b)
  {
  }

  /** The text holds a comma between any two items, and those of the items. */
  lemma {:induction false} ListedCommas(es: seq<TxtEntry>)
    requires es != []
    ensures Commas(Listed(es)) >= |es| - 1
    ensures Commas(Listed(es)) == |es| - 1 ==> HaveNoCommas(es)
  {
    var text := ItemText(es[0]);
    NoCommas(text);
    FirstAndRest(es);
    if |es| > 1 {
      ListedCons(es);
      hide ItemText, Commas, Listed, HaveNoCommas, ReadOneByOne;
      ListedCommas(es[1..]);
      var rest := Listed(es[1..]);
      CommasConcat(text, "," + " " + rest);
      CommaSpace(rest);
    }
  }

  lemma ReadsItem(text: string, rest: string)
    requires ',' !in text
    ensures ReadItems(text) == if ReadItem(text).None? then None else Some([ReadItem(text).value])
    ensures ReadItems(text + ("," + " " + rest)) ==
            if ReadItem(text).None? || ReadItems(rest).None? then None
            else Some([ReadItem(text).value] + ReadItems(rest).value)
  {
    hide ReadItem, IndexOf;
    var s := text + ("," + " " + rest);
    IndexBefore(text, ',', " " + rest);
    assert text[..|text|] == text;
    assert s == text + [','] + (" " + rest) && s[..|text|] == text && s[|text| + 2..] == rest;
  }

  lemma SameCons(a: TxtEntry, s: seq<TxtEntry>, b: TxtEntry, t: seq<TxtEntry>)
    ensures [a] + s == [b] + t <==> a == b && s == t
    ensures [a] + [] == [a]
  {
    if [a] + s == [b] + t {
      assert a == ([a] + s)[0] && s == ([a] + s)[1..] && b == ([b] + t)[0] && t == ([b] + t)[1..];
    }
  }

  /** Items without commas are read one by one. */
  lemma {:induction false} ItemsReadBackIff(es: seq<TxtEntry>)
    requires es != [] && HaveNoCommas(es)
    ensures ReadItems(Listed(es)) == Some(es) <==> ReadOneByOne(es)
  {
    var text := ItemText(es[0]);
    var first, rest := ReadItem(text), ReadItems(Listed(es[1..]));
    FirstAndRest(es);
    if first.Some? {
      SameCons(first.value, if rest.Some? && |es| > 1 then rest.value else [], es[0], es[1..]);
    }
    if |es| == 1 {
      ReadsItem(text, "");
      assert es[1..] == [];
      hide ReadItem, ItemText, ReadItems;
    } else {
      ListedCons(es);
      ReadsItem(text, Listed(es[1..]));
      hide ReadItem, ItemText, ReadItems, Listed, HaveNoCommas, ReadOneByOne;
      ItemsReadBackIff(es[1..]);
    }
  }

  /** The printed text determines the entries, with their keys and values, exactly when they are plain. */
  lemma TextReadsBackIff(es: seq<TxtEntry>)
    ensures ReadText("[" + Listed(es) + "]") == Some(es) <==> ArePlain(es)
  {
    hide IsPlain, ItemText, ReadItem, ReadItems, Commas;
    var out := "[" + Listed(es) + "]";
    if es != [] {
      forall k | 0 <= k < |es|
        ensures IsPlain(es[k]) <==> ReadItem(ItemText(es[k])) == Some(es[k]) && ',' !in ItemText(es[k])
      {
        ItemReadsBackIff(es[k]);
      }
      ItemReadsBackIff(es[0]);
      assert out[1..|out| - 1] == Listed(es);
      ItemsByCommas(Listed(es));
      ListedCommas(es);
      if HaveNoCommas(es) {
        ItemsReadBackIff(es);
      }
      assert |es| == 1 ==> es == [es[0]];
    }
  }

  /** A separator inside a key makes the text ambiguous: the keys "a" and "b" print like the one key "a, b". */
  lemma CommaInKeyIsAmbiguous()
    ensures Listed([TxtEntry(Some([97]), None), TxtEntry(Some([98]), None)]) == "a, b"
    ensures Listed([TxtEntry(Some([97, 44, 32, 98]), None)]) == "a, b"
  {
    var key: Bytes := [97, 44, 32, 98];
    assert KeyText([97]) == "a" && KeyText([98]) == "b";
    assert key[1..] == [44, 32, 98] && key[1..][1..] == [32, 98] && key[1..][1..][1..] == [98];
    assert KeyText([32, 98]) == " b" && KeyText([44, 32, 98]) == ", b";
  }

  // ---------- Printing ----------

  /** Prints every entry that can be read, in order, with a separator only between two items. */
  method OutputDnsTxtData(data: Bytes) returns (out: string)
    requires |data| <= 0xffff
    ensures out == "[" + Listed(ReadAll(data).entries) + "]"
    ensures ReadText(out) == Some(ReadAll(data).entries) <==> ArePlain(ReadAll(data).entries)
  {
    assert Listed([]) == "";
    hide ItemText, Listed, ReadAll, ReadText, ArePlain;
    var reader := new TxtEntryIterator(Some(data));
    var isFirst := true;
    out := "[";
    ghost var shown: seq<TxtEntry> := [];
    ghost var rest := ReadAll(data);
    assert data[0..] == data && shown + rest.entries == rest.entries;
    while true
      invariant reader.Valid() && fresh(reader) && fresh(reader.keyBuffer) && reader.txtData == Some(data)
      invariant isFirst <==> shown == []
      invariant out == "[" + Listed(shown)
      invariant rest == ReadAll(reader.Rest()) && shown + rest.entries == ReadAll(data).entries
      decreases |data| - reader.position
    {
      var next := reader.GetNextEntry();
      if next.Err? {
        break;
      }
      ItemAppended(out, shown, next.value);
      if !isFirst {
        out := out + ", ";
      }
      out := out + ItemText(next.value);
      isFirst := false;
      rest := ReadAll(reader.Rest());
      Regroup(shown, next.value, rest.entries);
      shown := shown + [next.value];
    }
    assert shown + [] == shown;
    out := out + "]";
    TextReadsBackIff(shown);
  }

  lemma ItemAppended(out: string, shown: seq<TxtEntry>, e: TxtEntry)
    requires out == "[" + Listed(shown)
    ensures (if shown == [] then out else out + ", ") + ItemText(e) == "[" + Listed(shown + [e])
  {
    assert Listed([]) == "";
    hide ItemText, Listed;
    ListedSnoc(shown, e);
  }

  lemma Regroup(shown: seq<TxtEntry>, e: TxtEntry, rest: seq<TxtEntry>)
    ensures shown + ([e] + rest) == shown + [e] + rest
  {
  }
}
