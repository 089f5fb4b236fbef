/** DNS TXT data: encoding entries, iterating over them, and verifying received data. */
module TxtRecords {
  import opened Base

  type Bytes = seq<Byte>

  const EQUALS: Byte := 61
  const MAX_KEY: nat := 9
  const MAX_ENCODED: nat := 255

  /** A null key or value is None. A key is a C string, so it holds no zero byte. */
  datatype TxtEntry = TxtEntry(key: Option<Bytes>, value: Option<Bytes>)

  function UntilNul(s: Bytes): (r: Bytes)
    ensures 0 !in s ==> r == s
  {
    if s == [] || s[0] == 0 then [] else [s[0]] + UntilNul(s[1..])
  }

  /** The index of the first `=`, or the length of the string. */
  function FirstEquals(s: Bytes): (k: nat)
    ensures k <= |s| && (k < |s| ==> s[k] == EQUALS)
    ensures forall j :: 0 <= j < k ==> s[j] != EQUALS
  {
    if s == [] || s[0] == EQUALS then 0
    else
      var k := FirstEquals(s[1..]);
      assert forall j :: 0 < j < |s| ==> s[j] == s[1..][j - 1];
      k + 1
  }

  // ---------- Meaning of TXT data ----------

  /** What one non-empty string stands for: "key=value", "key", or a string whose key is too long. */
  function EntryOf(s: Bytes): TxtEntry {
    var k := FirstEquals(s);
    if k < |s| && k <= MAX_KEY then TxtEntry(Some(UntilNul(s[..k])), Some(s[k + 1..]))
    else if |s| > MAX_KEY then TxtEntry(None, Some(s))
    else TxtEntry(Some(UntilNul(s)), None)
  }

  /** The iterator keeps a key of up to nine bytes apart; a longer one is returned with the whole string. */
  lemma KeysUpToNine(key: Bytes, value: Bytes)
    requires EQUALS !in key && 0 !in key
    ensures EntryOf(key) == if |key| <= 9 then TxtEntry(Some(key), None) else TxtEntry(None, Some(key))
    ensures var s := key + [EQUALS] + value;
            EntryOf(s) == if |key| <= 9 then TxtEntry(Some(key), Some(value)) else TxtEntry(None, Some(s))
  {
    var s := key + [EQUALS] + value;
    assert forall k :: 0 <= k < |key| ==> s[k] == key[k];
    assert s[|key|] == EQUALS && s[..|key|] == key && s[|key| + 1..] == value;
    assert FirstEquals(s) == |key|;
  }

  predicate HasKey(s: Bytes) {
    s != [] && s[0] != EQUALS
  }

  /** The strings that the data holds, and how reading it ends. */
  datatype Reading = Reading(entries: seq<TxtEntry>, end: Error)

  /** Strings without a key are skipped; a string that runs past the end stops the reading. */
  function ReadAll(data: Bytes): (r: Reading)
    ensures r.end == NotFound || r.end == Parse
    decreases |data|
  {
    if data == [] then Reading([], NotFound)
    else if 1 + data[0] > |data| then Reading([], Parse)
    else
      var s, rest := data[1..1 + data[0]], ReadAll(data[1 + data[0]..]);
      if HasKey(s) then Reading([EntryOf(s)] + rest.entries, rest.end) else rest
  }

  /** Whole strings only. */
  predicate WellFormed(data: Bytes)
    decreases |data|
  {
    data == [] || (1 + data[0] <= |data| && WellFormed(data[1 + data[0]..]))
  }

  lemma {:induction false} ReadAllEnd(data: Bytes)
    ensures ReadAll(data).end == if WellFormed(data) then NotFound else Parse
    decreases |data|
  {
    if data != [] && 1 + data[0] <= |data| {
      ReadAllEnd(data[1 + data[0]..]);
    }
  }

  // ---------- The iterator ----------

  /** `r` is the first step of reading `before`, and `after` is what remains to be read. */
  ghost predicate NextOf(before: Reading, r: Result<TxtEntry>, after: Reading) {
    match r
    case Ok(entry) => before == Reading([entry] + after.entries, after.end)
    case Err(error) => before == Reading([], error) == after
  }

  class TxtEntryIterator {
    const txtData: Option<Bytes>
    var position: nat
    const keyBuffer: array<Byte>

    ghost predicate Valid()
      reads this
    {
      keyBuffer.Length == MAX_KEY + 1 && (txtData.Some? ==> position <= |txtData.value| <= 0xffff)
    }

    /** The data not yet read. */
    ghost function Rest(): Bytes
      requires Valid() && txtData.Some?
      reads this
    {
      txtData.value[position..]
    }

    constructor (data: Option<Bytes>)
      requires data.Some? ==> |data.value| <= 0xffff
      ensures Valid() && txtData == data && position == 0 && fresh(keyBuffer)
    {
      txtData := data;
      position := 0;
      keyBuffer := new Byte[MAX_KEY + 1](_ => 0);
    }

    /** Returns the entries of the data one by one, then the way the data ends, again and again. */
    method GetNextEntry() returns (r: Result<TxtEntry>)
      requires Valid()
      modifies this, keyBuffer
      ensures Valid()
      ensures txtData.None? ==> r == Err(Parse)
      ensures txtData.Some? ==>
          NextOf(ReadAll(old(Rest())), r, ReadAll(Rest())) && (r.Ok? ==> position > old(position))
    {
      hide ReadAll, EntryOf;
      if txtData.None? {
        return Err(Parse);
      }
      var data := txtData.value;
      while position < |data|
        invariant Valid() && old(position) <= position
        invariant ReadAll(data[old(position)..]) == ReadAll(data[position..])
      {
        var length := data[position];
        ReadOne(data, position);
        if position + 1 + length > |data| {
          return Err(Parse);
        }
        var s := data[position + 1..position + 1 + length];
        position := position + 1 + length;
        if length == 0 || s[0] == EQUALS {
          continue;
        }
        var entry := SplitString(s, keyBuffer);
        return Ok(entry);
      }
      assert data[position..] == [];
      NothingLeft();
      r := Err(NotFound);
    }
  }

  lemma NothingLeft()
    ensures ReadAll([]) == Reading([], NotFound)
  {
  }

  lemma ReadOne(data: Bytes, pos: nat)
    requires pos < |data|
    ensures var next := pos + 1 + data[pos];
            ReadAll(data[pos..]) ==
            if next > |data| then Reading([], Parse)
            else
              var s, rest := data[pos + 1..next], ReadAll(data[next..]);
              if HasKey(s) then Reading([EntryOf(s)] + rest.entries, rest.end) else rest
  {
    var next := pos + 1 + data[pos];
    if next <= |data| {
      assert data[pos..][1..1 + data[pos]] == data[pos + 1..next];
      assert data[pos..][1 + data[pos]..] == data[next..];
    }
  }

  /** The inner loop: copies the key into the buffer until `=`, the end, or a key that is too long. */
  method SplitString(s: Bytes, keyBuffer: array<Byte>) returns (entry: TxtEntry)
    requires HasKey(s) && keyBuffer.Length == MAX_KEY + 1
    modifies keyBuffer
    ensures entry == EntryOf(s)
  {
    var index: nat := 0;
    while index < |s|
      invariant index <= |s| && index <= MAX_KEY && index <= FirstEquals(s)
      invariant keyBuffer[..index] == s[..index]
    {
      if s[index] == EQUALS {
        assert FirstEquals(s) == index;
        keyBuffer[index] := 0;
        KeyIsPrefix(keyBuffer[..], s[..index]);
        return TxtEntry(Some(UntilNul(keyBuffer[..])), Some(s[index + 1..]));
      }
      if index >= MAX_KEY {
        return TxtEntry(None, Some(s));
      }
      ghost var before := keyBuffer[..index];
      keyBuffer[index] := s[index];
      assert keyBuffer[..index + 1] == before + [s[index]] == s[..index + 1];
      index := index + 1;
    }
    assert s[..index] == s;
    keyBuffer[index] := 0;
    KeyIsPrefix(keyBuffer[..], s);
    entry := TxtEntry(Some(UntilNul(keyBuffer[..])), None);
  }

  /** A terminated copy of a key reads as the key. */
  lemma {:induction false} KeyIsPrefix(buffer: Bytes, key: Bytes)
    requires |key| < |buffer| && buffer[..|key|] == key && buffer[|key|] == 0
    ensures UntilNul(buffer) == UntilNul(key)
  {
    if key != [] {
      assert buffer[0] == buffer[..|key|][0] == key[0];
      assert buffer[1..][..|key[1..]|] == buffer[..|key|][1..] == key[1..];
      KeyIsPrefix(buffer[1..], key[1..]);
    }
  }

  // ---------- Verifying received data ----------

  /** The check made on received data accepts exactly what the iterator reads to the end. */
  method VerifyTxtData(data: Bytes) returns (valid: bool)
    ensures valid <==> data != [] && ReadAll(data).end == NotFound
  {
    ReadAllEnd(data);
    if |data| == 0 {
      return false;
    }
    var curEntryLength: nat := 0;
    assert data[0..] == data;
    for i := 0 to |data|
      invariant WellFormed(data) <==> i + curEntryLength <= |data| && WellFormed(data[i + curEntryLength..])
    {
      if curEntryLength == 0 {
        curEntryLength := data[i];
        if i + 1 + curEntryLength <= |data| {
          assert data[i..][1 + curEntryLength..] == data[i + 1 + curEntryLength..];
        }
      } else {
        curEntryLength := curEntryLength - 1;
      }
    }
    valid := curEntryLength == 0;
  }
}
