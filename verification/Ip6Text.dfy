/** IPv6 addresses as text: what the interpreter prints (`%x:%x:...`) and what `Ip6::Address::FromString` reads. */
module Ip6Text {
  import opened Base
  import opened Numbers

  /** An address as eight 16-bit words in host byte order. */
  type Address = a: seq<Uint16> | |a| == 8 witness [0, 0, 0, 0, 0, 0, 0, 0]

  /** Big-endian byte order, as `HostSwap16` applies it on a little-endian host. */
  function Word16(high: Byte, low: Byte): (w: Uint16) {
    high * 0x100 + low
  }

  // ---------- Meaning of address text ----------

  /** Four dotted decimal bytes from `pos` to the end of `s`, of which `bytes` have been read already. */
  function Octets(s: string, pos: nat, bytes: seq<Byte>): (r: Option<seq<Byte>>)
    requires pos <= |s| && |bytes| < 4
    ensures r.Some? ==> |r.value| == 4
    decreases 4 - |bytes|
  {
    match NumberAt(s, pos, Decimal, 0xff)
    case None => None
    case Some(n) =>
      if |bytes| == 3 then (if n.end == |s| then Some(bytes + [n.value]) else None)
      else if n.end == |s| || s[n.end] != '.' then None
      else Octets(s, n.end + 1, bytes + [n.value])
  }

  function Zeros(n: nat): (z: seq<Uint16>)
    ensures |z| == n
  {
    seq(n, _ => 0)
  }

  /** Fills the place of `::` with zeros up to `size` words. */
  function Expand(words: seq<Uint16>, gap: Option<nat>, size: nat): (r: Option<seq<Uint16>>)
    requires |words| <= size && (gap.Some? ==> gap.value <= |words|)
    ensures r.Some? ==> |r.value| == size
  {
    if |words| == size then Some(words)
    else if gap.None? then None
    else Some(words[..gap.value] + Zeros(size - |words|) + words[gap.value..])
  }

  function Finish(words: seq<Uint16>, gap: Option<nat>): Option<Address>
    requires |words| <= 8 && (gap.Some? ==> gap.value <= |words|)
  {
    match Expand(words, gap, 8)
    case None => None
    case Some(a) => Some(a)
  }

  function FinishDotted(s: string, pos: nat, words: seq<Uint16>, gap: Option<nat>): Option<Address>
    requires pos <= |s| && |words| <= 6 && (gap.Some? ==> gap.value <= |words|)
  {
    var head, octets := Expand(words, gap, 6), Octets(s, pos, []);
    if head.None? || octets.None? then None
    else Some(head.value + [Word16(octets.value[0], octets.value[1]), Word16(octets.value[2], octets.value[3])])
  }

  /**
   * The address denoted by a text of which the part before `pos` gave `words`; `gap` is the number of
   * words before a `::`, if there was one.
   */
  function Groups(s: string, pos: nat, words: seq<Uint16>, gap: Option<nat>): Option<Address>
    requires pos <= |s| && |words| <= 8 && (gap.Some? ==> gap.value <= |words|)
    decreases |s| - pos
  {
    if pos == |s| then Finish(words, gap)
    else
      match NumberAt(s, pos, Hex, 0xffff)
      case None => None
      case Some(n) =>
        if n.end < |s| && s[n.end] == '.' then (if |words| <= 6 then FinishDotted(s, pos, words, gap) else None)
        else if n.end < |s| && s[n.end] != ':' then None
        else if |words| == 8 then None
        else AfterGroup(s, n.end, words + [n.value], gap)
  }

  function AfterGroup(s: string, pos: nat, words: seq<Uint16>, gap: Option<nat>): Option<Address>
    requires pos <= |s| && |words| <= 8 && (gap.Some? ==> gap.value <= |words|)
    decreases |s| - pos
  {
    if pos == |s| then Finish(words, gap)
    else if pos + 1 < |s| && s[pos + 1] == ':' then
      (if gap.Some? then None else Groups(s, pos + 2, words, Some(|words|)))
    else Groups(s, pos + 1, words, gap)
  }

  function ParseAddress(s: string): Option<Address> {
    if s != "" && s[0] == ':' then
      if |s| > 1 && s[1] == ':' then Groups(s, 2, [], Some(0)) else None
    else Groups(s, 0, [], None)
  }

  /** `ParseAsIp6Address`. */
  function AddressArgument(s: string): (r: Result<Address>)
    ensures r.Err? ==> r.error == Parse
  {
    match ParseAddress(s)
    case Some(a) => Ok(a)
    case None => Err(Parse)
  }

  // ---------- The parser ----------

  /** `Ip4::Address::FromString` on the text from `start`. */
  method FromStringIp4(s: string, start: nat) returns (r: Option<seq<Byte>>)
    requires start <= |s|
    ensures r == Octets(s, start, [])
  {
    var pos: nat, bytes: seq<Byte> := start, [];
    while true
      invariant pos <= |s| && |bytes| < 4
      invariant Octets(s, start, []) == Octets(s, pos, bytes)
      decreases 4 - |bytes|
    {
      var n := ScanNumber(s, pos, Decimal, 0xff);
      if n.None? {
        return None;
      }
      bytes := bytes + [n.value.value];
      pos := n.value.end;
      if |bytes| == 4 {
        break;
      }
      if pos == |s| || s[pos] != '.' {
        return None;
      }
      pos := pos + 1;
    }
    r := if pos == |s| then Some(bytes) else None;
  }

  /** What is left to read, in terms of the parser's variables. */
  function Remaining(s: string, pos: nat, words: seq<Uint16>, gap: Option<nat>, hasIp4: bool): Option<Address>
    requires pos <= |s| && |words| <= (if hasIp4 then 6 else 8) && (gap.Some? ==> gap.value <= |words|)
  {
    if hasIp4 then FinishDotted(s, pos, words, gap) else Groups(s, pos, words, gap)
  }

  method FromString(s: string) returns (r: Option<Address>)
    ensures r == ParseAddress(s)
  {
    hide NumberAt, Finish, FinishDotted, Expand;
    var fields := new Uint16[8];
    var pos: nat, index: nat := 0, 0;
    var colonIndex: Option<nat> := None;
    var hasIp4 := false;
    assert fields[..0] == [];
    if |s| > 0 && s[0] == ':' {
      if |s| == 1 || s[1] != ':' {
        return None;
      }
      pos, colonIndex := 2, Some(0);
    }
    while pos < |s| && !hasIp4
      invariant pos <= |s| && index <= (if hasIp4 then 6 else 8) && (colonIndex.Some? ==> colonIndex.value <= index)
      invariant ParseAddress(s) == Remaining(s, pos, fields[..index], colonIndex, hasIp4)
      decreases |s| - pos, !hasIp4
    {
      ghost var words := fields[..index];
      var n := ScanNumber(s, pos, Hex, 0xffff);
      if n.None? {
        return None;
      }
      var Scanned(end, value) := n.value;
      if end < |s| && s[end] == '.' {
        if index > 6 {
          return None;
        }
        hasIp4 := true;
      } else {
        if (end < |s| && s[end] != ':') || index == 8 {
          return None;
        }
        assert ParseAddress(s) == AfterGroup(s, end, words + [value], colonIndex);
        fields[index] := value;
        index := index + 1;
        assert fields[..index] == words + [value];
        pos := end;
        if pos < |s| {
          pos := pos + 1;
          if pos < |s| && s[pos] == ':' {
            if colonIndex.Some? {
              return None;
            }
            colonIndex := Some(index);
            pos := pos + 1;
          }
        }
      }
    }
    r := Complete(fields, index, colonIndex, hasIp4, s, pos);
  }

  /** The end of `FromString`: fills the place of `::` and appends a dotted tail. */
  method Complete(fields: array<Uint16>, index: nat, colonIndex: Option<nat>, hasIp4: bool, s: string, pos: nat)
    returns (r: Option<Address>)
    requires pos <= |s| && fields.Length == 8 && index <= (if hasIp4 then 6 else 8)
    requires colonIndex.Some? ==> colonIndex.value <= index
    modifies fields
    ensures r == if hasIp4 then FinishDotted(s, pos, old(fields[..index]), colonIndex)
                 else Finish(old(fields[..index]), colonIndex)
  {
    var endIndex := if hasIp4 then 6 else 8;
    if index < endIndex {
      if colonIndex.None? {
        return None;
      }
      FillGap(fields, index, colonIndex.value, endIndex);
    }
    ghost var head := fields[..endIndex];
    if hasIp4 {
      var ip4 := FromStringIp4(s, pos);
      if ip4.None? {
        return None;
      }
      fields[6], fields[7] := Word16(ip4.value[0], ip4.value[1]), Word16(ip4.value[2], ip4.value[3]);
      assert fields[..] == head + [fields[6], fields[7]];
    }
    assert fields[..8] == fields[..];
    r := Some(fields[..]);
  }

  /** Moves the words after `::` to the end and clears the place they leave, in place. */
  method FillGap(fields: array<Uint16>, index: nat, colonIndex: nat, endIndex: nat)
    requires colonIndex <= index < endIndex <= fields.Length
    modifies fields
    ensures Expand(old(fields[..index]), Some(colonIndex), endIndex) == Some(fields[..endIndex])
  {
    var wordsToCopy := index - colonIndex;
    var first := endIndex - wordsToCopy;
    forall k | first <= k < endIndex {
      fields[k] := fields[k - first + colonIndex];
    }
    forall k | colonIndex <= k < colonIndex + endIndex - index {
      fields[k] := 0;
    }
    ghost var words, filled := old(fields[..index]), fields[..endIndex];
    assert forall k :: 0 <= k < colonIndex ==> filled[k] == words[k];
    assert forall k :: colonIndex <= k < first ==> filled[k] == 0;
    assert forall k :: first <= k < endIndex ==> filled[k] == words[k - first + colonIndex];
    Filled(words, filled, colonIndex);
  }

  lemma Filled(words: seq<Uint16>, filled: seq<Uint16>, gap: nat)
    requires gap <= |words| < |filled|
    requires forall k :: 0 <= k < gap ==> filled[k] == words[k]
    requires forall k :: gap <= k < gap + |filled| - |words| ==> filled[k] == 0
    requires forall k :: gap + |filled| - |words| <= k < |filled| ==> filled[k] == words[k - (|filled| - |words|)]
    ensures Expand(words, Some(gap), |filled|) == Some(filled)
  {
    assert words[..gap] + Zeros(|filled| - |words|) + words[gap..] == filled;
  }
}
