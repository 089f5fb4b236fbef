/** The exact language of the IPv6 address parser, which is larger than that of section 2.2 of RFC 4291. */
module Ip6Grammar {
  import opened Base
  import opened Numbers
  import opened Ip6Text

  // ---------- The grammar ----------

  datatype Sep = End | Colon | Gap

  /** A group of hexadecimal digits and what follows it. */
  datatype Token = Token(group: string, sep: Sep)

  /** An optional leading `::`, groups with their separators, and optionally four dotted decimal bytes. */
  datatype Form = Form(leading: bool, tokens: seq<Token>, dotted: Option<seq<string>>)

  function SepText(sep: Sep): string {
    match sep
    case End => ""
    case Colon => ":"
    case Gap => "::"
  }

  function TokensText(tokens: seq<Token>): string {
    if tokens == [] then "" else tokens[0].group + (SepText(tokens[0].sep) + TokensText(tokens[1..]))
  }

  function BytesText(bytes: seq<string>): string {
    if bytes == [] then "" else if |bytes| == 1 then bytes[0] else bytes[0] + ("." + BytesText(bytes[1..]))
  }

  function RestText(tokens: seq<Token>, dotted: Option<seq<string>>): string {
    TokensText(tokens) + if dotted.Some? then BytesText(dotted.value) else ""
  }

  function FormText(f: Form): string {
    (if f.leading then "::" else "") + RestText(f.tokens, f.dotted)
  }

  /** Any number of digits, leading zeros included. */
  predicate IsNumber(text: string, radix: Radix, max: nat) {
    text != "" && Value(text, radix).Some? && Value(text, radix).value <= max
  }

  function NumberOf(text: string, radix: Radix, max: nat): (n: nat)
    requires IsNumber(text, radix, max)
    ensures n <= max
  {
    Value(text, radix).value
  }

  predicate AreGroups(tokens: seq<Token>) {
    forall k :: 0 <= k < |tokens| ==> IsNumber(tokens[k].group, Hex, 0xffff)
  }

  predicate AreBytes(bytes: seq<string>) {
    forall k :: 0 <= k < |bytes| ==> IsNumber(bytes[k], Decimal, 0xff)
  }

  function Gaps(tokens: seq<Token>): nat {
    if tokens == [] then 0 else (if tokens[0].sep.Gap? then 1 else 0) + Gaps(tokens[1..])
  }

  function Size(dotted: Option<seq<string>>): nat {
    if dotted.Some? then 6 else 8
  }

  /** Only the very last group may be followed by nothing, and there are no more groups than words. */
  predicate IsRest(tokens: seq<Token>, dotted: Option<seq<string>>) {
    && AreGroups(tokens)
    && (forall k :: 0 <= k < |tokens| && tokens[k].sep.End? ==> k == |tokens| - 1 && dotted.None?)
    && (dotted.Some? ==> |dotted.value| == 4 && AreBytes(dotted.value))
  }

  /** At most one `::`. */
  predicate IsForm(f: Form) {
    && IsRest(f.tokens, f.dotted) && |f.tokens| <= Size(f.dotted)
    && Gaps(f.tokens) + (if f.leading then 1 else 0) <= 1
  }

  // ---------- What a form denotes ----------

  function Words(tokens: seq<Token>): (words: seq<Uint16>)
    requires AreGroups(tokens)
    ensures |words| == |tokens|
  {
    seq(|tokens|, k requires 0 <= k < |tokens| => NumberOf(tokens[k].group, Hex, 0xffff))
  }

  function Bytes(texts: seq<string>): (bytes: seq<Byte>)
    requires AreBytes(texts)
    ensures |bytes| == |texts|
  {
    seq(|texts|, k requires 0 <= k < |texts| => NumberOf(texts[k], Decimal, 0xff))
  }

  /** The number of groups before `::`, where `n` groups and perhaps a gap came before the tokens. */
  function GapOf(tokens: seq<Token>, n: nat, gap: Option<nat>): (r: Option<nat>)
    requires gap.Some? ==> gap.value <= n
    ensures r.Some? ==> r.value <= n + |tokens|
  {
    if tokens == [] then gap
    else GapOf(tokens[1..], n + 1, if tokens[0].sep.Gap? then Some(n + 1) else gap)
  }

  /** Zeros stand for `::` up to the size; without room for any, `::` stands for nothing. */
  function Completed(words: seq<Uint16>, gap: Option<nat>, dotted: Option<seq<string>>): Option<Address>
    requires |words| <= Size(dotted) && (gap.Some? ==> gap.value <= |words|)
    requires dotted.Some? ==> |dotted.value| == 4 && AreBytes(dotted.value)
  {
    if dotted.None? then Finish(words, gap)
    else
      var head, b := Expand(words, gap, 6), Bytes(dotted.value);
      if head.None? then None else Some(head.value + [Word16(b[0], b[1]), Word16(b[2], b[3])])
  }

  function FormValue(f: Form): Option<Address>
    requires IsForm(f)
  {
    Completed(Words(f.tokens), GapOf(f.tokens, 0, if f.leading then Some(0) else None), f.dotted)
  }

  // ---------- Reading numbers ----------

  lemma Cut(s: string, pos: nat, t: string, u: string)
    requires pos <= |s| && s[pos..] == t + u
    ensures pos + |t| <= |s| && s[pos..pos + |t|] == t && s[pos + |t|..] == u
  {
    assert s[pos..][..|t|] == (t + u)[..|t|];
    assert s[pos..][|t|..] == (t + u)[|t|..];
  }

  lemma {:induction false} AllDigits(text: string, radix: Radix, k: nat)
    requires Value(text, radix).Some? && k < |text|
    ensures Digit(text[k], radix).Some?
  {
    if k < |text| - 1 {
      AllDigits(text[..|text| - 1], radix, k);
    }
  }

  /** A number that no digit follows is read as it stands. */
  lemma ReadsNumber(s: string, pos: nat, text: string, rest: string, radix: Radix, max: nat)
    requires pos <= |s| && s[pos..] == text + rest && IsNumber(text, radix, max)
    requires rest == "" || Digit(rest[0], radix).None?
    ensures NumberAt(s, pos, radix, max) == Some(Scanned(pos + |text|, NumberOf(text, radix, max)))
  {
    var end := pos + |text|;
    Cut(s, pos, text, rest);
    hide Digit, Value;
    forall k | pos <= k < end ensures Digit(s[k], radix).Some? {
      AllDigits(text, radix, k - pos);
      assert s[k] == text[k - pos];
    }
    if rest != "" {
      assert s[end] == rest[0];
    }
    RunEndIs(s, pos, end, radix);
  }

  /** What is read as a number is a number, and no digit follows it. */
  lemma ReadIsNumber(s: string, pos: nat, radix: Radix, max: nat)
    requires pos <= |s| && NumberAt(s, pos, radix, max).Some?
    ensures var n := NumberAt(s, pos, radix, max).value;
            IsNumber(s[pos..n.end], radix, max) && s[pos..] == s[pos..n.end] + s[n.end..]
  {
    var end := RunEnd(s, pos, radix);
    assert s[pos..] == s[pos..end] + s[end..];
  }

  // ---------- Dotted bytes ----------

  lemma NextOctet(s: string, pos: nat, bytes: seq<Byte>, n: Scanned)
    requires pos <= |s| && |bytes| < 4 && NumberAt(s, pos, Decimal, 0xff) == Some(n)
    ensures |bytes| == 3 && n.end == |s| ==> Octets(s, pos, bytes) == Some(bytes + [n.value])
    ensures |bytes| < 3 && n.end < |s| && s[n.end] == '.' ==>
        Octets(s, pos, bytes) == Octets(s, n.end + 1, bytes + [n.value])
  {
    hide NumberAt;
  }

  lemma {:induction false} ReadsBytes(s: string, pos: nat, bytes: seq<Byte>, texts: seq<string>)
    requires pos <= |s| && texts != [] && |bytes| + |texts| == 4 && AreBytes(texts)
    requires s[pos..] == BytesText(texts)
    ensures Octets(s, pos, bytes) == Some(bytes + Bytes(texts))
    decreases |texts|
  {
    hide IsNumber, NumberOf, NumberAt, Octets;
    var first, tail := texts[0], texts[1..];
    var b: Byte := NumberOf(first, Decimal, 0xff);
    var end := pos + |first|;
    if |texts| == 1 {
      assert s[pos..] == first + "";
      ReadsNumber(s, pos, first, "", Decimal, 0xff);
      Cut(s, pos, first, "");
      NextOctet(s, pos, bytes, Scanned(end, b));
      assert Bytes(texts) == [b];
    } else {
      var rest := "." + BytesText(tail);
      ReadsNumber(s, pos, first, rest, Decimal, 0xff);
      Cut(s, pos, first, rest);
      Cut(s, end, ".", BytesText(tail));
      hide BytesText;
      assert s[end..end + 1][0] == '.';
      NextOctet(s, pos, bytes, Scanned(end, b));
      ReadsBytes(s, end + 1, bytes + [b], tail);
      FirstByte(bytes, texts, b);
    }
  }

  lemma FirstByte(bytes: seq<Byte>, texts: seq<string>, b: Byte)
    requires texts != [] && AreBytes(texts) && b == NumberOf(texts[0], Decimal, 0xff)
    ensures bytes + [b] + Bytes(texts[1..]) == bytes + Bytes(texts)
  {
    hide IsNumber, NumberOf;
    assert Bytes(texts) == [b] + Bytes(texts[1..]);
  }

  lemma {:induction false} OctetsAreBytes(s: string, pos: nat, bytes: seq<Byte>) returns (texts: seq<string>)
    requires pos <= |s| && |bytes| < 4 && Octets(s, pos, bytes).Some?
    ensures |bytes| + |texts| == 4 && AreBytes(texts) && s[pos..] == BytesText(texts)
    decreases 4 - |bytes|
  {
    ReadIsNumber(s, pos, Decimal, 0xff);
    hide IsNumber, NumberAt;
    var n := NumberAt(s, pos, Decimal, 0xff).value;
    var first := s[pos..n.end];
    if |bytes| == 3 {
      texts := [first];
      assert s[n.end..] == "" && first + "" == first;
    } else {
      var tail := OctetsAreBytes(s, n.end + 1, bytes + [n.value]);
      texts := [first] + tail;
      assert texts[1..] == tail && s[n.end..] == "." + s[n.end + 1..];
    }
  }

  // ---------- Groups ----------

  lemma FirstGroup(words: seq<Uint16>, tokens: seq<Token>)
    requires tokens != [] && AreGroups(tokens)
    ensures words + Words(tokens) == words + [NumberOf(tokens[0].group, Hex, 0xffff)] + Words(tokens[1..])
  {
    hide IsNumber, NumberOf;
    assert Words(tokens) == [NumberOf(tokens[0].group, Hex, 0xffff)] + Words(tokens[1..]);
  }

  lemma Assoc(a: string, b: string, c: string, d: string)
    ensures (a + (b + c)) + d == a + (b + (c + d))
  {
  }

  lemma RestCons(tokens: seq<Token>, dotted: Option<seq<string>>)
    requires tokens != []
    ensures RestText(tokens, dotted) == tokens[0].group + (SepText(tokens[0].sep) + RestText(tokens[1..], dotted))
  {
    Assoc(tokens[0].group, SepText(tokens[0].sep), TokensText(tokens[1..]),
          if dotted.Some? then BytesText(dotted.value) else "");
  }

  /** Where a group and its separator end. */
  lemma CutToken(s: string, pos: nat, group: string, sep: string, rest: string)
    requires pos <= |s| && s[pos..] == group + (sep + rest)
    ensures var end := pos + |group|;
            && end + |sep| <= |s| && s[end..] == sep + rest
            && s[end..end + |sep|] == sep && s[end + |sep|..] == rest
  {
    Cut(s, pos, group, sep + rest);
    Cut(s, pos + |group|, sep, rest);
  }

  /** What follows a separator starts with a digit, if there is anything. */
  lemma RestStart(tokens: seq<Token>, dotted: Option<seq<string>>)
    requires IsRest(tokens, dotted)
    ensures var text := RestText(tokens, dotted);
            text == "" || (Digit(text[0], Hex).Some? && (tokens == [] ==> Digit(text[0], Decimal).Some?))
  {
    if tokens != [] {
      AllDigits(tokens[0].group, Hex, 0);
    } else if dotted.Some? {
      AllDigits(dotted.value[0], Decimal, 0);
    }
  }

  lemma SepIsNoDigit(sep: Sep)
    ensures SepText(sep) == "" || Digit(SepText(sep)[0], Hex).None?
  {
  }

  lemma RestOfTokens(tokens: seq<Token>, dotted: Option<seq<string>>)
    requires IsRest(tokens, dotted) && tokens != []
    ensures IsRest(tokens[1..], dotted)
    ensures tokens[0].sep.End? ==> |tokens| == 1 && dotted.None?
  {
    hide IsNumber;
  }

  /** What a separator makes of the position after a group. */
  lemma AfterSep(s: string, end: nat, words: seq<Uint16>, gap: Option<nat>, sep: Sep, rest: string)
    requires end <= |s| && |words| <= 8 && (gap.Some? ==> gap.value <= |words|)
    requires s[end..] == SepText(sep) + rest && (sep.Gap? ==> gap.None?) && (sep.End? ==> rest == "")
    requires rest == "" || rest[0] != ':'
    ensures var next := end + |SepText(sep)|;
            && next <= |s|
            && AfterGroup(s, end, words, gap) == Groups(s, next, words, if sep.Gap? then Some(|words|) else gap)
  {
    hide NumberAt, Finish, FinishDotted;
    match sep
    case End =>
    case Colon =>
      assert s[end..][0] == ':';
      assert rest != "" ==> s[end..][1] == rest[0];
    case Gap =>
      assert s[end..][0] == ':' && s[end..][1] == ':';
  }

  /** A number that a dot or anything but a colon does not follow becomes a word. */
  lemma GroupIsWord(s: string, pos: nat, words: seq<Uint16>, gap: Option<nat>, n: Scanned)
    requires pos < |s| && |words| < 8 && (gap.Some? ==> gap.value <= |words|)
    requires NumberAt(s, pos, Hex, 0xffff) == Some(n) && (n.end == |s| || s[n.end] == ':')
    ensures Groups(s, pos, words, gap) == AfterGroup(s, n.end, words + [n.value], gap)
  {
    hide NumberAt, Finish, FinishDotted, AfterGroup;
  }

  lemma DigitIsNoColon(c: char)
    requires Digit(c, Hex).Some?
    ensures c != ':'
  {
  }

  /** One group: it is read, added to the words, and its separator decides how to go on. */
  lemma ReadsToken(s: string, pos: nat, words: seq<Uint16>, gap: Option<nat>, tokens: seq<Token>,
                   dotted: Option<seq<string>>)
    requires pos <= |s| && |words| < 8 && (gap.Some? ==> gap.value <= |words|)
    requires IsRest(tokens, dotted) && tokens != [] && s[pos..] == RestText(tokens, dotted)
    requires tokens[0].sep.Gap? ==> gap.None?
    ensures var more := words + [NumberOf(tokens[0].group, Hex, 0xffff)];
            var next := pos + |tokens[0].group| + |SepText(tokens[0].sep)|;
            && next <= |s| && s[next..] == RestText(tokens[1..], dotted)
            && Groups(s, pos, words, gap) == Groups(s, next, more, if tokens[0].sep.Gap? then Some(|more|) else gap)
  {
    hide IsNumber, NumberOf, RestText, NumberAt, Groups, AfterGroup, Digit;
    RestOfTokens(tokens, dotted);
    var group, sep, rest := tokens[0].group, SepText(tokens[0].sep), RestText(tokens[1..], dotted);
    var end, more := pos + |group|, words + [NumberOf(group, Hex, 0xffff)];
    RestStart(tokens[1..], dotted);
    if rest != "" {
      DigitIsNoColon(rest[0]);
    }
    if tokens[0].sep.End? {
      EndIsEnd(tokens, dotted);
    }
    hide IsRest;
    RestCons(tokens, dotted);
    SepIsNoDigit(tokens[0].sep);
    ReadsNumber(s, pos, group, sep + rest, Hex, 0xffff);
    CutToken(s, pos, group, sep, rest);
    assert end < |s| ==> s[end] == s[end..][0] == ':';
    GroupIsWord(s, pos, words, gap, Scanned(end, NumberOf(group, Hex, 0xffff)));
    AfterSep(s, end, more, gap, tokens[0].sep, rest);
  }

  lemma EndIsEnd(tokens: seq<Token>, dotted: Option<seq<string>>)
    requires IsRest(tokens, dotted) && tokens != [] && tokens[0].sep.End?
    ensures RestText(tokens[1..], dotted) == ""
  {
  }

  /** The dotted tail: the first byte is scanned as a group before its dot is seen. */
  lemma ReadsDotted(s: string, pos: nat, words: seq<Uint16>, gap: Option<nat>, dotted: seq<string>)
    requires pos <= |s| && |words| <= 6 && (gap.Some? ==> gap.value <= |words|)
    requires |dotted| == 4 && AreBytes(dotted) && s[pos..] == BytesText(dotted)
    ensures Groups(s, pos, words, gap) == Completed(words, gap, Some(dotted))
  {
    var first, rest := dotted[0], "." + BytesText(dotted[1..]);
    var end := pos + |first|;
    ByteAsGroup(first);
    ReadsNumber(s, pos, first, rest, Hex, 0xffff);
    Cut(s, pos, first, rest);
    hide IsNumber, NumberOf, NumberAt, Expand;
    assert s[end] == rest[0] == '.';
    ReadsBytes(s, pos, [], dotted);
    assert [] + Bytes(dotted) == Bytes(dotted);
  }

  /** Decimal digits are hexadecimal digits too, and a byte in decimal is small enough in hexadecimal. */
  lemma ByteAsGroup(text: string)
    requires IsNumber(text, Decimal, 0xff)
    ensures IsNumber(text, Hex, 0xffff)
  {
    DecimalAsHex(text);
  }

  lemma {:induction false} DecimalAsHex(text: string)
    requires Value(text, Decimal).Some?
    ensures Value(text, Hex).Some?
    ensures var v, w := Value(text, Decimal).value, Value(text, Hex).value;
            && (v == 0 ==> w == 0) && (v <= 9 ==> w <= 9) && (v <= 25 ==> w <= 41) && (v <= 255 ==> w <= 665)
    decreases |text|
  {
    if text != "" {
      DecimalAsHex(text[..|text| - 1]);
    }
  }

  // ---------- The language ----------

  /** Groups, separators and a dotted tail are read as they stand. */
  lemma {:induction false} ReadsRest(s: string, pos: nat, words: seq<Uint16>, gap: Option<nat>, tokens: seq<Token>,
                                     dotted: Option<seq<string>>)
    requires pos <= |s| && (gap.Some? ==> gap.value <= |words|) && |words| + |tokens| <= Size(dotted)
    requires IsRest(tokens, dotted) && s[pos..] == RestText(tokens, dotted)
    requires Gaps(tokens) + (if gap.Some? then 1 else 0) <= 1
    ensures Groups(s, pos, words, gap) == Completed(words + Words(tokens), GapOf(tokens, |words|, gap), dotted)
    decreases |tokens|
  {
    hide IsNumber, NumberOf, Groups, Completed, BytesText;
    if tokens == [] {
      assert words + Words([]) == words;
      if dotted.Some? {
        assert RestText([], dotted) == BytesText(dotted.value);
        ReadsDotted(s, pos, words, gap, dotted.value);
      } else {
        AtEnd(s, pos, words, gap);
      }
    } else {
      ReadsToken(s, pos, words, gap, tokens, dotted);
      RestOfTokens(tokens, dotted);
      FirstGroup(words, tokens);
      hide RestText, Words;
      var more := words + [NumberOf(tokens[0].group, Hex, 0xffff)];
      var next := pos + |tokens[0].group| + |SepText(tokens[0].sep)|;
      ReadsRest(s, next, more, if tokens[0].sep.Gap? then Some(|more|) else gap, tokens[1..], dotted);
    }
  }

  lemma AtEnd(s: string, pos: nat, words: seq<Uint16>, gap: Option<nat>)
    requires pos <= |s| && s[pos..] == "" && |words| <= 8 && (gap.Some? ==> gap.value <= |words|)
    ensures Groups(s, pos, words, gap) == Completed(words, gap, None)
  {
  }

  /** Whatever is read consists of groups, separators and perhaps a dotted tail. */
  lemma {:induction false} ReadIsRest(s: string, pos: nat, words: seq<Uint16>, gap: Option<nat>)
    returns (tokens: seq<Token>, dotted: Option<seq<string>>)
    requires pos <= |s| && |words| <= 8 && (gap.Some? ==> gap.value <= |words|)
    requires Groups(s, pos, words, gap).Some?
    ensures IsRest(tokens, dotted) && s[pos..] == RestText(tokens, dotted) && |words| + |tokens| <= Size(dotted)
    ensures Gaps(tokens) + (if gap.Some? then 1 else 0) <= 1
    decreases |s| - pos
  {
    hide NumberAt, IsNumber, Groups, RestText, Gaps, IsRest;
    tokens, dotted := [], None;
    if pos == |s| {
      EmptyRest();
    } else {
      GroupIsRead(s, pos, words, gap);
      ReadIsNumber(s, pos, Hex, 0xffff);
      var n := NumberAt(s, pos, Hex, 0xffff).value;
      if n.end < |s| && s[n.end] == '.' {
        dotted := DottedIsRest(s, pos, words, gap, n);
      } else {
        var sep := if n.end == |s| then End else if n.end + 1 < |s| && s[n.end + 1] == ':' then Gap else Colon;
        var next, more := n.end + |SepText(sep)|, words + [n.value];
        NextState(s, pos, words, gap, n, sep);
        var tail;
        tail, dotted := ReadIsRest(s, next, more, if sep.Gap? then Some(|more|) else gap);
        tokens := AddToken(s, pos, n.end, sep, tail, dotted);
      }
    }
  }

  /** A group and a separator in front of a rest. */
  lemma AddToken(s: string, pos: nat, end: nat, sep: Sep, tail: seq<Token>, dotted: Option<seq<string>>)
    returns (tokens: seq<Token>)
    requires pos <= end <= |s| && IsNumber(s[pos..end], Hex, 0xffff) && (end < |s| ==> s[end] == ':')
    requires sep == if end == |s| then End else if end + 1 < |s| && s[end + 1] == ':' then Gap else Colon
    requires end + |SepText(sep)| <= |s| && IsRest(tail, dotted)
    requires s[end + |SepText(sep)|..] == RestText(tail, dotted)
    ensures IsRest(tokens, dotted) && s[pos..] == RestText(tokens, dotted) && |tokens| == |tail| + 1
    ensures Gaps(tokens) == (if sep.Gap? then 1 else 0) + Gaps(tail)
  {
    hide IsNumber, RestText, Gaps, IsRest;
    var token := Token(s[pos..end], sep);
    tokens := [token] + tail;
    SepAt(s, end, sep);
    assert s[pos..] == s[pos..end] + s[end..];
    if sep.End? {
      NothingLeft(tail, dotted);
    }
    TokenFirst(token, tail, dotted);
  }

  lemma EmptyRest()
    ensures IsRest([], None) && RestText([], None) == "" && Gaps([]) == 0
  {
  }

  lemma GroupIsRead(s: string, pos: nat, words: seq<Uint16>, gap: Option<nat>)
    requires pos < |s| && |words| <= 8 && (gap.Some? ==> gap.value <= |words|)
    requires Groups(s, pos, words, gap).Some?
    ensures NumberAt(s, pos, Hex, 0xffff).Some?
  {
    hide NumberAt;
  }

  lemma DottedIsRest(s: string, pos: nat, words: seq<Uint16>, gap: Option<nat>, n: Scanned)
    returns (dotted: Option<seq<string>>)
    requires pos < |s| && |words| <= 8 && (gap.Some? ==> gap.value <= |words|)
    requires NumberAt(s, pos, Hex, 0xffff) == Some(n) && n.end < |s| && s[n.end] == '.'
    requires Groups(s, pos, words, gap).Some?
    ensures dotted.Some? && |words| <= 6 && IsRest([], dotted) && s[pos..] == RestText([], dotted) && Gaps([]) == 0
  {
    hide NumberAt, IsNumber, Expand, Octets;
    var texts := OctetsAreBytes(s, pos, []);
    dotted := Some(texts);
    assert "" + BytesText(texts) == BytesText(texts);
  }

  lemma SepAt(s: string, end: nat, sep: Sep)
    requires end <= |s| && (end < |s| ==> s[end] == ':')
    requires sep == if end == |s| then End else if end + 1 < |s| && s[end + 1] == ':' then Gap else Colon
    ensures s[end..] == SepText(sep) + s[end + |SepText(sep)|..]
  {
  }

  /** Reading goes on after the separator. */
  lemma NextState(s: string, pos: nat, words: seq<Uint16>, gap: Option<nat>, n: Scanned, sep: Sep)
    requires pos < |s| && |words| <= 8 && (gap.Some? ==> gap.value <= |words|)
    requires NumberAt(s, pos, Hex, 0xffff) == Some(n) && !(n.end < |s| && s[n.end] == '.')
    requires sep == if n.end == |s| then End else if n.end + 1 < |s| && s[n.end + 1] == ':' then Gap else Colon
    requires Groups(s, pos, words, gap).Some?
    ensures n.end + |SepText(sep)| <= |s| && |words| < 8 && (sep.Gap? ==> gap.None?)
    ensures n.end < |s| ==> s[n.end] == ':'
    ensures var more := words + [n.value];
            Groups(s, n.end + |SepText(sep)|, more, if sep.Gap? then Some(|more|) else gap).Some?
  {
    hide NumberAt, Finish, FinishDotted;
  }

  lemma TokenFirst(token: Token, tail: seq<Token>, dotted: Option<seq<string>>)
    ensures var tokens := [token] + tail;
            && RestText(tokens, dotted) == token.group + (SepText(token.sep) + RestText(tail, dotted))
            && Gaps(tokens) == (if token.sep.Gap? then 1 else 0) + Gaps(tail)
    ensures (&& IsNumber(token.group, Hex, 0xffff) && IsRest(tail, dotted)
             && (token.sep.End? ==> tail == [] && dotted.None?)) ==> IsRest([token] + tail, dotted)
  {
    var tokens := [token] + tail;
    assert tokens[1..] == tail;
    RestCons(tokens, dotted);
    hide RestText, IsNumber;
    assert forall k :: 0 < k < |tokens| ==> tokens[k] == tail[k - 1];
  }

  lemma NothingLeft(tokens: seq<Token>, dotted: Option<seq<string>>)
    requires IsRest(tokens, dotted) && RestText(tokens, dotted) == ""
    ensures tokens == [] && dotted.None?
  {
  }

  /** The parser accepts exactly the texts of the grammar, each with the address that its form denotes. */
  lemma ParseAddressIff(s: string, a: Address)
    ensures ParseAddress(s) == Some(a) <==> exists f :: IsForm(f) && FormText(f) == s && FormValue(f) == Some(a)
  {
    hide IsForm, FormText, FormValue;
    forall f | IsForm(f) && FormText(f) == s ensures ParseAddress(s) == FormValue(f) {
      FormIsRead(f);
    }
    if ParseAddress(s).Some? {
      var f := ReadIsForm(s);
    }
  }

  lemma FormIsRead(f: Form)
    requires IsForm(f)
    ensures ParseAddress(FormText(f)) == FormValue(f)
  {
    var s, rest := FormText(f), RestText(f.tokens, f.dotted);
    hide IsNumber, NumberOf, Groups, Completed;
    var pos, gap: Option<nat> := if f.leading then 2 else 0, if f.leading then Some(0) else None;
    assert s[pos..] == rest;
    RestStart(f.tokens, f.dotted);
    if !f.leading && rest != "" {
      DigitIsNoColon(rest[0]);
    }
    ReadsRest(s, pos, [], gap, f.tokens, f.dotted);
    assert [] + Words(f.tokens) == Words(f.tokens);
  }

  lemma ReadIsForm(s: string) returns (f: Form)
    requires ParseAddress(s).Some?
    ensures IsForm(f) && FormText(f) == s
  {
    hide Groups;
    var leading := s != "" && s[0] == ':';
    var pos, gap: Option<nat> := if leading then 2 else 0, if leading then Some(0) else None;
    var tokens, dotted := ReadIsRest(s, pos, [], gap);
    f := Form(leading, tokens, dotted);
    assert s == s[..pos] + s[pos..];
    assert leading ==> s[..2] == "::";
  }
}
