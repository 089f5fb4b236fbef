/** Encoding TXT entries and reading them back. */
module TxtEncoding {
  import opened Base
  import opened TxtRecords

  // ---------- Encoding ----------

  /** `StringLength(mKey, 256)`. */
  function KeyLength(key: Bytes): nat {
    if |key| < MAX_ENCODED + 1 then |key| else MAX_ENCODED + 1
  }

  /** The bytes that one entry appends. The length byte of a boolean attribute is truncated to eight bits. */
  function Encoded(e: TxtEntry): Result<Bytes> {
    match (e.key, e.value)
    case (None, None) => Ok([])
    case (None, Some(raw)) => Ok(raw)
    case (Some(key), None) =>
      var n := KeyLength(key);
      if n < 1 then Err(InvalidArgs) else Ok([n % 0x100] + key[..n])
    case (Some(key), Some(value)) =>
      var n := KeyLength(key);
      if n < 1 || |value| + n + 1 > MAX_ENCODED then Err(InvalidArgs)
      else Ok([n + |value| + 1] + key + [EQUALS] + value)
  }

  function EncodedAll(es: seq<TxtEntry>): Result<Bytes> {
    if es == [] then Ok([])
    else
      match (Encoded(es[0]), EncodedAll(es[1..]))
      case (Ok(first), Ok(rest)) => Ok(first + rest)
      case _ => Err(InvalidArgs)
  }

  /** Appends the entries to a message; a record without any content becomes one empty string. */
  method AppendEntries(message: Bytes, es: seq<TxtEntry>) returns (error: Error, out: Bytes)
    ensures error == if EncodedAll(es).Ok? then NoError else InvalidArgs
    ensures EncodedAll(es).Ok? ==>
        out == message + if EncodedAll(es).value == [] then [0] else EncodedAll(es).value
  {
    out := message;
    var index: nat := 0;
    assert es[0..] == es;
    while index < |es|
      invariant index <= |es|
      invariant EncodedAll(es).Ok? <==> EncodedAll(es[index..]).Ok?
      invariant EncodedAll(es).Ok? ==> message + EncodedAll(es).value == out + EncodedAll(es[index..]).value
    {
      assert es[index..][1..] == es[index + 1..];
      var bytes := Encoded(es[index]);
      if bytes.Err? {
        return InvalidArgs, out;
      }
      ghost var before := out;
      out := out + bytes.value;
      if EncodedAll(es).Ok? {
        assert before + (bytes.value + EncodedAll(es[index + 1..]).value) == out + EncodedAll(es[index + 1..]).value;
      }
      index := index + 1;
    }
    assert out + [] == out;
    assert EncodedAll(es).Ok? ==> |out| == |message| + |EncodedAll(es).value|;
    if |out| == |message| {
      out := out + [0];
    }
    error := NoError;
  }

  // ---------- Reading back ----------

  /** The string of an entry, without its length byte. */
  function Content(e: TxtEntry): Bytes {
    match (e.key, e.value)
    case (None, None) => []
    case (None, Some(raw)) => raw
    case (Some(key), None) => key
    case (Some(key), Some(value)) => key + [EQUALS] + value
  }

  /** What the iterator is to return for an entry: the entry, or its whole string if the key is too long. */
  function Shown(e: TxtEntry): TxtEntry {
    if e.key.Some? && |e.key.value| <= MAX_KEY then e else TxtEntry(None, Some(Content(e)))
  }

  /** The key has no `=` where the iterator looks for one. */
  predicate NoEarlyEquals(key: Bytes) {
    FirstEquals(key) == |key| || FirstEquals(key) > MAX_KEY
  }

  /** A key/value or boolean entry that can be read back. */
  predicate Readable(e: TxtEntry) {
    && e.key.Some? && e.key.value != [] && 0 !in e.key.value && NoEarlyEquals(e.key.value)
    && |Content(e)| <= MAX_ENCODED
  }

  lemma EntryOfContent(e: TxtEntry)
    requires Readable(e)
    ensures HasKey(Content(e)) && EntryOf(Content(e)) == Shown(e)
  {
    var key, s := e.key.value, Content(e);
    assert s[..|key|] == key;
    var k := FirstEquals(s);
    assert s[0] == key[0];
    if k < |key| {
      assert s[k] == key[k];
    }
    var m := FirstEquals(key);
    if m < |key| {
      assert s[m] == key[m];
    }
    if e.value.Some? {
      assert s[|key|] == EQUALS;
      assert s[|key| + 1..] == e.value.value;
    }
  }

  lemma EncodedReadable(e: TxtEntry)
    requires Readable(e)
    ensures Encoded(e) == Ok([|Content(e)|] + Content(e))
  {
    if e.value.Some? {
      EncodedPair(e.key.value, e.value.value);
    } else {
      EncodedBoolean(e.key.value);
    }
  }

  /** One length-prefixed string is read first, whatever follows it. */
  lemma ReadString(s: Bytes, rest: Bytes)
    requires |s| <= MAX_ENCODED
    ensures ReadAll([|s|] + s + rest) ==
            if HasKey(s) then Reading([EntryOf(s)] + ReadAll(rest).entries, ReadAll(rest).end) else ReadAll(rest)
  {
    var data := [|s|] + s + rest;
    assert data[1..1 + |s|] == s && data[1 + |s|..] == rest;
  }

  lemma ReadConcatStep(s: Bytes, rest: Bytes, b: Bytes)
    requires |s| <= MAX_ENCODED
    requires ReadAll(rest + b) == Reading(ReadAll(rest).entries + ReadAll(b).entries, ReadAll(b).end)
    ensures ReadAll([|s|] + s + (rest + b)) ==
            Reading(ReadAll([|s|] + s + rest).entries + ReadAll(b).entries, ReadAll(b).end)
  {
    hide ReadAll, EntryOf, HasKey;
    ReadString(s, rest);
    ReadString(s, rest + b);
    ThreeLists([EntryOf(s)], ReadAll(rest).entries, ReadAll(b).entries);
  }

  lemma ThreeLists(a: seq<TxtEntry>, b: seq<TxtEntry>, c: seq<TxtEntry>)
    ensures a + b + c == a + (b + c)
  {
  }

  /** Well-formed data is read to its end before what follows it. */
  lemma {:induction false} ReadConcat(a: Bytes, b: Bytes)
    requires WellFormed(a)
    ensures ReadAll(a + b) == Reading(ReadAll(a).entries + ReadAll(b).entries, ReadAll(b).end)
    decreases |a|
  {
    if a == [] {
      assert a + b == b;
      assert [] + ReadAll(b).entries == ReadAll(b).entries;
    } else {
      hide ReadAll;
      var s, rest := FirstString(a, b);
      ReadConcat(rest, b);
      ReadConcatStep(s, rest, b);
    }
  }

  lemma FirstString(a: Bytes, b: Bytes) returns (s: Bytes, rest: Bytes)
    requires WellFormed(a) && a != []
    ensures |s| <= MAX_ENCODED && a == [|s|] + s + rest && a + b == [|s|] + s + (rest + b)
    ensures WellFormed(rest) && |rest| < |a|
  {
    var n: int := a[0];
    s, rest := a[1..1 + n], a[1 + n..];
  }

  /** Already encoded data may stand in for an entry. */
  predicate Acceptable(e: TxtEntry) {
    if e.key.Some? then Readable(e) else WellFormed(Content(e))
  }

  function ShownAll(es: seq<TxtEntry>): seq<TxtEntry> {
    if es == [] then []
    else (if es[0].key.Some? then [Shown(es[0])] else ReadAll(Content(es[0])).entries) + ShownAll(es[1..])
  }

  /**
   * Encoding a list of entries and iterating over the bytes returns the list: "key", "key=" and
   * "key=value" stay distinct, an entry with a long key comes back whole, and already encoded data
   * comes back as the entries it holds.
   */
  lemma {:induction false} EntriesReadBack(es: seq<TxtEntry>)
    requires forall k :: 0 <= k < |es| ==> Acceptable(es[k])
    ensures EncodedAll(es).Ok? && ReadAll(EncodedAll(es).value) == Reading(ShownAll(es), NotFound)
  {
    if es != [] {
      var e := es[0];
      EntriesReadBack(es[1..]);
      var rest := EncodedAll(es[1..]).value;
      assert Acceptable(es[0]);
      if e.key.Some? {
        EncodedReadable(e);
        EntryOfContent(e);
        ReadString(Content(e), rest);
        assert [|Content(e)|] + Content(e) + rest == EncodedAll(es).value;
      } else {
        ReadConcat(Content(e), rest);
      }
    }
  }

  /**
   * Encoding what the iterator returned for a string gives the string back, with its length byte,
   * exactly when the key is not too long: a string returned whole has lost its length byte.
   */
  lemma ReencodeIff(s: Bytes)
    requires HasKey(s) && |s| <= MAX_ENCODED && 0 !in s[..FirstEquals(s)]
    ensures Encoded(EntryOf(s)) == Ok([|s|] + s) <==> EntryOf(s).key.Some?
  {
    var k := FirstEquals(s);
    EntryOfParts(s, k);
    hide EntryOf, FirstEquals, Encoded;
    if k < |s| && k <= MAX_KEY {
      EncodedPair(s[..k], s[k + 1..]);
      JoinAtEquals(s, k);
    } else if |s| > MAX_KEY {
      EncodedRaw(s);
    } else {
      EncodedBoolean(s);
    }
  }

  /** The entry of a string without zero bytes in its key. */
  lemma EntryOfParts(s: Bytes, k: nat)
    requires HasKey(s) && k == FirstEquals(s) && 0 !in s[..k]
    ensures 0 < k <= |s| && (k < |s| ==> s[k] == EQUALS)
    ensures EntryOf(s) == if k < |s| && k <= MAX_KEY then TxtEntry(Some(s[..k]), Some(s[k + 1..]))
                          else if |s| > MAX_KEY then TxtEntry(None, Some(s))
                          else TxtEntry(Some(s), None)
  {
    hide UntilNul;
    if k == |s| {
      assert s[..k] == s;
    }
  }

  lemma JoinAtEquals(s: Bytes, k: nat)
    requires k < |s| && s[k] == EQUALS
    ensures s[..k] + [EQUALS] + s[k + 1..] == s
  {
  }

  lemma EncodedPair(key: Bytes, value: Bytes)
    requires key != [] && |key| + 1 + |value| <= MAX_ENCODED
    ensures Encoded(TxtEntry(Some(key), Some(value))) == Ok([|key| + 1 + |value|] + (key + [EQUALS] + value))
  {
    var n := |key| + 1 + |value|;
    assert [n] + (key + [EQUALS] + value) == [n] + key + [EQUALS] + value;
  }

  lemma EncodedBoolean(key: Bytes)
    requires key != [] && |key| <= MAX_ENCODED
    ensures Encoded(TxtEntry(Some(key), None)) == Ok([|key|] + key)
  {
    assert key[..|key|] == key;
  }

  lemma EncodedRaw(s: Bytes)
    requires |s| <= MAX_ENCODED
    ensures Encoded(TxtEntry(None, Some(s))) != Ok([|s|] + s)
  {
    assert |[|s|] + s| != |s|;
  }

  /** A record without content is one empty string, which is well formed and holds no entry. */
  lemma EmptyRecord()
    ensures ReadAll([0]) == Reading([], NotFound)
  {
    assert ReadAll([0]) == ReadAll([0][1..]);
  }

  lemma {:induction false} ValuesAreShort(data: Bytes, k: nat)
    requires k < |ReadAll(data).entries|
    ensures var e := ReadAll(data).entries[k]; e.value.Some? ==> |e.value.value| <= MAX_ENCODED
    decreases |data|
  {
    var length: int := data[0];
    var next := length + 1;
    if HasKey(data[1..next]) {
      if k > 0 {
        ValuesAreShort(data[next..], k - 1);
      }
    } else {
      ValuesAreShort(data[next..], k);
    }
  }

  /**
   * Exactly when one encoded entry reads back: its key must have no `=` among the bytes the iterator
   * scans for one and, for a boolean attribute, must fit the length byte. The encoder checks neither.
   */
  lemma EntryReadsBackIff(e: TxtEntry)
    requires e.key.Some? && 0 !in e.key.value && Encoded(e).Ok?
    ensures ReadAll(Encoded(e).value) == Reading([Shown(e)], NotFound)
            <==> NoEarlyEquals(e.key.value) && (e.value.None? ==> |e.key.value| <= MAX_ENCODED)
  {
    var key := e.key.value;
    if e.value.None? && |key| > MAX_ENCODED {
      LongBooleanLost(e);
    } else if NoEarlyEquals(key) {
      EntriesReadBack([e]);
      assert [e][1..] == [];
      assert EncodedAll([]) == Ok([]);
      assert Encoded(e).value + [] == Encoded(e).value;
      assert ShownAll([]) == [] && ShownAll([e]) == [Shown(e)];
    } else {
      EarlyEqualsSplits(e);
    }
  }

  /** A boolean attribute of more than 255 characters gets length byte 0, and is lost. */
  lemma LongBooleanLost(e: TxtEntry)
    requires e.key.Some? && e.value.None? && |e.key.value| > MAX_ENCODED
    ensures Encoded(e).Ok? && Encoded(e).value[0] == 0
    ensures ReadAll(Encoded(e).value) != Reading([Shown(e)], NotFound)
  {
    var data := Encoded(e).value;
    assert data[0] == 0;
    if ReadAll(data).entries == [Shown(e)] {
      ValuesAreShort(data, 0);
    }
  }

  lemma EarlyEqualsSplits(e: TxtEntry)
    requires e.key.Some? && 0 !in e.key.value && Encoded(e).Ok? && !NoEarlyEquals(e.key.value)
    requires e.value.None? ==> |e.key.value| <= MAX_ENCODED
    ensures ReadAll(Encoded(e).value) != Reading([Shown(e)], NotFound)
  {
    var key, s := e.key.value, Content(e);
    var m := FirstEquals(key);
    EncodedContent(e);
    assert s[..|key|] == key;
    SameEquals(key, s);
    hide Encoded, ReadAll, EntryOf, FirstEquals, HasKey;
    ReadString(s, []);
    NothingLeft();
    if HasKey(s) {
      PrefixHasNoNul(key, s, m);
      EntryOfParts(s, m);
      assert |s[..m]| < |key|;
      assert EntryOf(s) != Shown(e);
      assert ([EntryOf(s)] + [])[0] == EntryOf(s);
    }
  }

  lemma EncodedContent(e: TxtEntry)
    requires e.key.Some? && Encoded(e).Ok? && (e.value.None? ==> |e.key.value| <= MAX_ENCODED)
    ensures |Content(e)| <= MAX_ENCODED && Encoded(e).value == [|Content(e)|] + Content(e) + []
  {
    var key := e.key.value;
    if e.value.None? {
      EncodedBoolean(key);
    } else {
      EncodedPair(key, e.value.value);
    }
    assert [|Content(e)|] + Content(e) + [] == [|Content(e)|] + Content(e);
  }

  /** The first `=` of a key is the first one of every string that begins with the key. */
  lemma SameEquals(key: Bytes, s: Bytes)
    requires |key| <= |s| && s[..|key|] == key && FirstEquals(key) < |key|
    ensures FirstEquals(s) == FirstEquals(key)
  {
    hide FirstEquals;
    var m := FirstEquals(key);
    assert s[m] == key[m];
    assert forall j :: 0 <= j < m ==> s[j] == key[j];
  }

  lemma PrefixHasNoNul(key: Bytes, s: Bytes, m: nat)
    requires m <= |key| <= |s| && s[..|key|] == key && 0 !in key
    ensures 0 !in s[..m]
  {
    assert s[..m] == key[..m];
    assert forall b :: b in key[..m] ==> b in key;
  }

  /** The boolean attribute "a=b" is read as the key "a" with the value "b". */
  lemma KeyWithEquals()
    ensures var e := TxtEntry(Some([97, EQUALS, 98]), None);
            && Encoded(e) == Ok([3, 97, EQUALS, 98])
            && ReadAll([3, 97, EQUALS, 98]) == Reading([TxtEntry(Some([97]), Some([98]))], NotFound)
  {
    var s: Bytes := [97, EQUALS, 98];
    assert FirstEquals(s[1..]) == 0;
    assert s[..1] == [97] && s[2..] == [98];
    assert [3] + s == [3] + s + [] == [3, 97, EQUALS, 98];
    ReadString(s, []);
    EncodedBoolean(s);
  }
}
