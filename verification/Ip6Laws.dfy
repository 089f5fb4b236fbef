/** Every way of writing an IPv6 address in section 2.2 of RFC 4291 is read back as that address. */
module Ip6Laws {
  import opened Base
  import opened Numbers
  import opened Ip6Text
  import opened Ip6Grammar

  // ---------- Spellings ----------

  /** `%x:%x:...`, without leading zeros. */
  function Join(ws: seq<Uint16>): string {
    if ws == [] then ""
    else if |ws| == 1 then Text(ws[0], Hex)
    else Text(ws[0], Hex) + ":" + Join(ws[1..])
  }

  /** What `OutputIp6Address` prints. */
  function AddressText(a: Address): string {
    Join(a)
  }

  /** Two words as four dotted decimal bytes. */
  function Dotted(high: Uint16, low: Uint16): string {
    Text(high / 0x100, Decimal) + "." + Text(high % 0x100, Decimal) + "." +
    Text(low / 0x100, Decimal) + "." + Text(low % 0x100, Decimal)
  }

  /** The words from index `from` on, the last two of them dotted if asked for. */
  function Tail(a: Address, from: nat, dotted: bool): string
    requires from <= if dotted then 6 else 8
  {
    if !dotted then Join(a[from..])
    else if from == 6 then Dotted(a[6], a[7])
    else Join(a[from..6]) + ":" + Dotted(a[6], a[7])
  }

  /** The form with `::` in place of the zero words from `i` up to `j`. */
  function Compressed(a: Address, i: nat, j: nat, dotted: bool): string
    requires i < j <= if dotted then 6 else 8
  {
    Join(a[..i]) + "::" + Tail(a, j, dotted)
  }

  lemma {:induction false} JoinLength(ws: seq<Uint16>)
    requires ws != []
    ensures |Join(ws)| <= 5 * |ws| - 1
  {
    assert Power(Hex, 4) == 0x1_0000;
    TextLength(ws[0], Hex, 4);
    if |ws| > 1 {
      JoinLength(ws[1..]);
    }
  }

  lemma {:induction false} JoinChars(ws: seq<Uint16>, k: nat)
    requires k < |Join(ws)|
    ensures Join(ws)[k] == ':' || Digit(Join(ws)[k], Hex).Some?
  {
    var text := Text(ws[0], Hex);
    if k < |text| {
      TextDigits(ws[0], Hex, k);
    } else if k > |text| {
      JoinChars(ws[1..], k - |text| - 1);
    }
  }

  // ---------- Their forms ----------

  /** The words, each followed by a colon and the last one by `sep`. */
  function TokensOf(ws: seq<Uint16>, sep: Sep): (tokens: seq<Token>)
    ensures |tokens| == |ws|
  {
    seq(|ws|, k requires 0 <= k < |ws| => Token(Text(ws[k], Hex), if k == |ws| - 1 then sep else Colon))
  }

  function BytesOfWords(high: Uint16, low: Uint16): seq<string> {
    [Text(high / 0x100, Decimal), Text(high % 0x100, Decimal), Text(low / 0x100, Decimal), Text(low % 0x100, Decimal)]
  }

  function DottedOf(a: Address, dotted: bool): Option<seq<string>> {
    if dotted then Some(BytesOfWords(a[6], a[7])) else None
  }

  /** The words that are written as groups. */
  function GroupsFrom(a: Address, from: nat, dotted: bool): seq<Uint16>
    requires from <= if dotted then 6 else 8
  {
    if dotted then a[from..6] else a[from..]
  }

  function LastSep(dotted: bool): Sep {
    if dotted then Colon else End
  }

  lemma TextIsNumber(n: nat, radix: Radix, max: nat)
    requires n <= max
    ensures IsNumber(Text(n, radix), radix, max) && NumberOf(Text(n, radix), radix, max) == n
  {
    ValueOfText(n, radix);
  }

  lemma TokensOfGroups(ws: seq<Uint16>, sep: Sep)
    ensures AreGroups(TokensOf(ws, sep)) && Words(TokensOf(ws, sep)) == ws
  {
    hide IsNumber, NumberOf, Text;
    forall k | 0 <= k < |ws|
      ensures IsNumber(TokensOf(ws, sep)[k].group, Hex, 0xffff)
      ensures NumberOf(TokensOf(ws, sep)[k].group, Hex, 0xffff) == ws[k]
    {
      TextIsNumber(ws[k], Hex, 0xffff);
    }
  }

  lemma TokensOfTail(ws: seq<Uint16>, sep: Sep)
    requires |ws| > 1
    ensures TokensOf(ws, sep)[1..] == TokensOf(ws[1..], sep)
  {
    hide Text;
  }

  lemma {:induction false} TokensOfText(ws: seq<Uint16>, sep: Sep)
    requires ws != []
    ensures TokensText(TokensOf(ws, sep)) == Join(ws) + SepText(sep)
  {
    hide Text, SepText;
    var first, tokens := Text(ws[0], Hex), TokensOf(ws, sep);
    if |ws| == 1 {
      assert tokens[1..] == [];
      assert first + (SepText(sep) + "") == first + SepText(sep);
    } else {
      TokensOfTail(ws, sep);
      TokensOfText(ws[1..], sep);
      ColonFirst(first, Join(ws[1..]), SepText(sep));
    }
  }

  lemma ColonFirst(a: string, b: string, c: string)
    ensures a + (SepText(Colon) + (b + c)) == a + ":" + b + c
  {
  }

  lemma {:induction false} TokensOfGaps(ws: seq<Uint16>, sep: Sep, n: nat, gap: Option<nat>)
    requires gap.Some? ==> gap.value <= n
    ensures Gaps(TokensOf(ws, sep)) == if ws != [] && sep.Gap? then 1 else 0
    ensures GapOf(TokensOf(ws, sep), n, gap) == if ws != [] && sep.Gap? then Some(n + |ws|) else gap
    decreases |ws|
  {
    hide Text;
    if |ws| == 1 {
      assert TokensOf(ws, sep)[1..] == [];
    } else if |ws| > 1 {
      TokensOfTail(ws, sep);
      TokensOfGaps(ws[1..], sep, n + 1, gap);
    }
  }

  lemma DottedIsBytes(high: Uint16, low: Uint16)
    ensures var texts := BytesOfWords(high, low);
            && BytesText(texts) == Dotted(high, low)
            && AreBytes(texts) && Bytes(texts) == [high / 0x100, high % 0x100, low / 0x100, low % 0x100]
  {
    hide IsNumber, NumberOf, Text;
    var texts := BytesOfWords(high, low);
    TextIsNumber(high / 0x100, Decimal, 0xff);
    TextIsNumber(high % 0x100, Decimal, 0xff);
    TextIsNumber(low / 0x100, Decimal, 0xff);
    TextIsNumber(low % 0x100, Decimal, 0xff);
    FourBytes(texts[0], texts[1], texts[2], texts[3]);
  }

  lemma FourBytes(a: string, b: string, c: string, d: string)
    ensures BytesText([a, b, c, d]) == a + "." + b + "." + c + "." + d
  {
    assert [a, b, c, d][1..] == [b, c, d] && [b, c, d][1..] == [c, d] && [c, d][1..] == [d];
    assert BytesText([c, d]) == c + ("." + d);
    assert BytesText([b, c, d]) == b + ("." + (c + ("." + d)));
    assert a + ("." + (b + ("." + (c + ("." + d))))) == a + "." + b + "." + c + "." + d;
  }

  /** The words from `from` on, written out, are the rest of a form. */
  lemma TailIsRest(a: Address, from: nat, dotted: bool)
    requires from <= if dotted then 6 else 8
    ensures var tokens := TokensOf(GroupsFrom(a, from, dotted), LastSep(dotted));
            IsRest(tokens, DottedOf(a, dotted)) && RestText(tokens, DottedOf(a, dotted)) == Tail(a, from, dotted)
  {
    hide IsNumber, NumberOf, Text, Dotted, Join, TokensText;
    var ws := GroupsFrom(a, from, dotted);
    DottedIsBytes(a[6], a[7]);
    TokensOfGroups(ws, LastSep(dotted));
    hide BytesText, BytesOfWords, AreBytes;
    if ws == [] {
      NoTokens();
      assert "" + Dotted(a[6], a[7]) == Dotted(a[6], a[7]);
    } else {
      TokensOfText(ws, LastSep(dotted));
      assert Join(ws) + "" + "" == Join(ws);
    }
  }

  lemma NoTokens()
    ensures TokensText([]) == "" && Join([]) == ""
  {
  }

  // ---------- Reading them ----------

  /** The words in front of a dotted tail, or all of them. */
  lemma CompleteAddress(a: Address, gap: Option<nat>, dotted: bool, words: seq<Uint16>)
    requires |words| <= (if dotted then 6 else 8) && (gap.Some? ==> gap.value <= |words|)
    requires Expand(words, gap, if dotted then 6 else 8) == Some(GroupsFrom(a, 0, dotted))
    ensures var texts := DottedOf(a, dotted);
            (texts.Some? ==> |texts.value| == 4 && AreBytes(texts.value)) && Completed(words, gap, texts) == Some(a)
  {
    hide Expand;
    DottedIsBytes(a[6], a[7]);
    hide AreBytes, Bytes, BytesOfWords;
    if dotted {
      assert a == a[..6] + [a[6], a[7]];
    }
  }

  /** An address written in full is read back, also with a dotted tail. */
  lemma ParseFullForm(a: Address, dotted: bool)
    ensures ParseAddress(Tail(a, 0, dotted)) == Some(a)
  {
    hide ParseAddress, Tail, IsRest, TokensOf, RestText, Completed;
    var ws := GroupsFrom(a, 0, dotted);
    var f := Form(false, TokensOf(ws, LastSep(dotted)), DottedOf(a, dotted));
    TailIsRest(a, 0, dotted);
    TokensOfGroups(ws, LastSep(dotted));
    TokensOfGaps(ws, LastSep(dotted), 0, None);
    CompleteAddress(a, None, dotted, ws);
    assert "" + Tail(a, 0, dotted) == Tail(a, 0, dotted);
    FormIsRead(f);
  }

  /** What the interpreter prints for an address is read back as that address. */
  lemma ParsePrinted(a: Address)
    ensures ParseAddress(AddressText(a)) == Some(a)
  {
    hide ParseAddress, Join;
    ParseFullForm(a, false);
    assert a[0..] == a;
  }

  /** The address whose sixteen bytes, in network order, are given. */
  function AddressOfBytes(bytes: seq<Byte>): (a: Address)
    requires |bytes| == 16
  {
    seq(8, k requires 0 <= k < 8 => Word16(bytes[2 * k], bytes[2 * k + 1]))
  }

  function BytesOf(a: Address): (bytes: seq<Byte>)
    ensures |bytes| == 16
  {
    seq(16, k requires 0 <= k < 16 => if k % 2 == 0 then a[k / 2] / 0x100 else a[k / 2] % 0x100)
  }

  /** Sixteen bytes are printed and read back without loss. */
  lemma PrintedBytesReadBack(bytes: seq<Byte>)
    requires |bytes| == 16
    ensures var read := ParseAddress(AddressText(AddressOfBytes(bytes))); read.Some? && BytesOf(read.value) == bytes
  {
    hide ParseAddress, AddressText;
    ParsePrinted(AddressOfBytes(bytes));
  }

  lemma {:induction false} RestConcat(x: seq<Token>, y: seq<Token>, dotted: Option<seq<string>>)
    ensures RestText(x + y, dotted) == TokensText(x) + RestText(y, dotted)
    ensures Gaps(x + y) == Gaps(x) + Gaps(y)
  {
    if x == [] {
      assert x + y == y && "" + RestText(y, dotted) == RestText(y, dotted);
    } else {
      assert (x + y)[1..] == x[1..] + y;
      RestConcat(x[1..], y, dotted);
      RestCons(x + y, dotted);
      hide RestText, SepText;
      Assoc(x[0].group, SepText(x[0].sep), TokensText(x[1..]), RestText(y, dotted));
    }
  }

  lemma {:induction false} GapOfConcat(x: seq<Token>, y: seq<Token>, n: nat, gap: Option<nat>)
    requires gap.Some? ==> gap.value <= n
    ensures GapOf(x + y, n, gap) == GapOf(y, n + |x|, GapOf(x, n, gap))
  {
    if x == [] {
      assert x + y == y;
    } else {
      assert (x + y)[1..] == x[1..] + y;
      GapOfConcat(x[1..], y, n + 1, if x[0].sep.Gap? then Some(n + 1) else gap);
    }
  }

  lemma WordsConcat(x: seq<Token>, y: seq<Token>)
    requires AreGroups(x) && AreGroups(y)
    ensures AreGroups(x + y) && Words(x + y) == Words(x) + Words(y)
  {
    hide IsNumber, NumberOf;
  }

  /** Groups that are all followed by something may come before any rest. */
  lemma BeforeRest(ws: seq<Uint16>, y: seq<Token>, dotted: Option<seq<string>>)
    requires IsRest(y, dotted)
    ensures IsRest(TokensOf(ws, Gap) + y, dotted)
  {
    TokensOfGroups(ws, Gap);
    hide IsNumber, NumberOf, Text, AreBytes;
    WordsConcat(TokensOf(ws, Gap), y);
  }

  /** The form with `::` between word `i` and word `j`. */
  function GapForm(a: Address, i: nat, j: nat, dotted: bool): Form
    requires i < j <= if dotted then 6 else 8
  {
    Form(i == 0, TokensOf(a[..i], Gap) + TokensOf(GroupsFrom(a, j, dotted), LastSep(dotted)), DottedOf(a, dotted))
  }

  lemma GapFormText(a: Address, i: nat, j: nat, dotted: bool)
    requires i < j <= if dotted then 6 else 8
    ensures IsForm(GapForm(a, i, j, dotted)) && FormText(GapForm(a, i, j, dotted)) == Compressed(a, i, j, dotted)
  {
    hide IsRest, TokensOf, RestText, Tail, TokensText, Join, DottedOf;
    var x, y := TokensOf(a[..i], Gap), TokensOf(GroupsFrom(a, j, dotted), LastSep(dotted));
    var texts := DottedOf(a, dotted);
    TailIsRest(a, j, dotted);
    BeforeRest(a[..i], y, texts);
    RestConcat(x, y, texts);
    TokensOfGaps(a[..i], Gap, 0, None);
    TokensOfGaps(GroupsFrom(a, j, dotted), LastSep(dotted), 0, None);
    SizeOf(a, dotted);
    if i == 0 {
      NoTokens();
      assert a[..0] == [] && x == [];
      LeadingGap(Tail(a, j, dotted));
    } else {
      TokensOfText(a[..i], Gap);
      NoLeading(Join(a[..i]) + "::" + Tail(a, j, dotted));
    }
  }

  lemma SizeOf(a: Address, dotted: bool)
    ensures Size(DottedOf(a, dotted)) == if dotted then 6 else 8
  {
  }

  lemma LeadingGap(t: string)
    ensures "::" + ("" + t) == "" + "::" + t
  {
  }

  lemma NoLeading(t: string)
    ensures "" + t == t
  {
  }

  lemma GapFormValue(a: Address, i: nat, j: nat, dotted: bool)
    requires i < j <= if dotted then 6 else 8
    requires forall k :: i <= k < j ==> a[k] == 0
    requires IsForm(GapForm(a, i, j, dotted))
    ensures FormValue(GapForm(a, i, j, dotted)) == Some(a)
  {
    hide IsForm, TokensOf, IsNumber, NumberOf, Completed, Expand, AreGroups, Words, GapOf, DottedOf;
    var ws := GroupsFrom(a, j, dotted);
    var x, y := TokensOf(a[..i], Gap), TokensOf(ws, LastSep(dotted));
    TokensOfGroups(a[..i], Gap);
    TokensOfGroups(ws, LastSep(dotted));
    WordsConcat(x, y);
    var gap := if i == 0 then Some(0) else None;
    GapOfConcat(x, y, 0, gap);
    TokensOfGaps(a[..i], Gap, 0, gap);
    TokensOfGaps(ws, LastSep(dotted), i, Some(i));
    ZeroRun(a, i, j, dotted);
    CompleteAddress(a, Some(i), dotted, a[..i] + ws);
  }

  lemma ZeroRun(a: Address, i: nat, j: nat, dotted: bool)
    requires i < j <= if dotted then 6 else 8
    requires forall k :: i <= k < j ==> a[k] == 0
    ensures Expand(a[..i] + GroupsFrom(a, j, dotted), Some(i), if dotted then 6 else 8) ==
            Some(GroupsFrom(a, 0, dotted))
  {
    var size := if dotted then 6 else 8;
    var words := a[..i] + a[j..size];
    assert words[..i] == a[..i] && words[i..] == a[j..size];
    assert a[..i] + Zeros(size - |words|) + a[j..size] == a[..size];
    assert a[j..8] == a[j..] && a[..8] == a;
  }

  /** Any run of zero words may be written as `::`, anywhere in the address. */
  lemma ParseCompressedForm(a: Address, i: nat, j: nat, dotted: bool)
    requires i < j <= if dotted then 6 else 8
    requires forall k :: i <= k < j ==> a[k] == 0
    ensures ParseAddress(Compressed(a, i, j, dotted)) == Some(a)
  {
    hide ParseAddress, IsForm, FormText, FormValue, GapForm, Compressed;
    GapFormText(a, i, j, dotted);
    GapFormValue(a, i, j, dotted);
    FormIsRead(GapForm(a, i, j, dotted));
  }

  // ---------- More than the standard ----------

  /** A full address may be followed by a colon, and `::` may stand beside it for no word at all. */
  lemma ExtraColonsAccepted(a: Address)
    ensures ParseAddress(AddressText(a) + ":") == Some(a)
    ensures ParseAddress(AddressText(a) + "::") == Some(a)
    ensures ParseAddress("::" + AddressText(a)) == Some(a)
  {
    hide ParseAddress, Join;
    FullTokens(a, Colon, false);
    FullTokens(a, Gap, false);
    FullTokens(a, End, true);
    assert "" + (Join(a) + ":") == Join(a) + ":" && "" + (Join(a) + "::") == Join(a) + "::";
    assert "::" + (Join(a) + "") == "::" + Join(a);
  }

  lemma FullTokens(a: Address, sep: Sep, leading: bool)
    requires leading ==> !sep.Gap?
    ensures ParseAddress((if leading then "::" else "") + (Join(a) + SepText(sep))) == Some(a)
  {
    hide ParseAddress, Join, TokensText, TokensOf, IsRest, Words, GapOf, Gaps, Text;
    var f := Form(leading, TokensOf(a, sep), None);
    FullRest(a, sep);
    TokensOfText(a, sep);
    TokensOfGaps(a, sep, 0, if leading then Some(0) else None);
    assert TokensText(f.tokens) + "" == TokensText(f.tokens);
    FormIsRead(f);
  }

  /** Eight groups need no gap, and one beside them stands for nothing. */
  lemma FullRest(a: Address, sep: Sep)
    ensures IsRest(TokensOf(a, sep), None) && Words(TokensOf(a, sep)) == a
  {
    TokensOfGroups(a, sep);
    hide IsNumber, NumberOf, Text, Words, AreGroups;
  }

  /** One such text. */
  lemma TrailingColonAccepted()
    ensures ParseAddress("1:2:3:4:5:6:7:8:") == Some([1, 2, 3, 4, 5, 6, 7, 8])
  {
    hide ParseAddress, Join;
    ExtraColonsAccepted([1, 2, 3, 4, 5, 6, 7, 8]);
    LastFour();
    JoinDigit(4, [5, 6, 7, 8], [4, 5, 6, 7, 8], "5:6:7:8", "4:5:6:7:8");
    JoinDigit(3, [4, 5, 6, 7, 8], [3, 4, 5, 6, 7, 8], "4:5:6:7:8", "3:4:5:6:7:8");
    JoinDigit(2, [3, 4, 5, 6, 7, 8], [2, 3, 4, 5, 6, 7, 8], "3:4:5:6:7:8", "2:3:4:5:6:7:8");
    JoinDigit(1, [2, 3, 4, 5, 6, 7, 8], [1, 2, 3, 4, 5, 6, 7, 8], "2:3:4:5:6:7:8", "1:2:3:4:5:6:7:8");
    assert "1:2:3:4:5:6:7:8" + ":" == "1:2:3:4:5:6:7:8:";
  }

  lemma LastFour()
    ensures Join([5, 6, 7, 8]) == "5:6:7:8"
  {
    assert Join([8]) == "8";
    hide Join;
    JoinDigit(7, [8], [7, 8], "8", "7:8");
    JoinDigit(6, [7, 8], [6, 7, 8], "7:8", "6:7:8");
    JoinDigit(5, [6, 7, 8], [5, 6, 7, 8], "6:7:8", "5:6:7:8");
  }

  lemma JoinDigit(w: Uint16, ws: seq<Uint16>, more: seq<Uint16>, text: string, all: string)
    requires w < 10 && ws != [] && more == [w] + ws && Join(ws) == text && all == [DigitChar(w), ':'] + text
    ensures Join(more) == all
  {
    assert more[1..] == ws;
    assert Text(w, Hex) == [DigitChar(w)];
  }

  /** No address is written without a colon, so no argument is both an address and a number. */
  lemma NoColonNoAddress(s: string)
    requires ':' !in s
    ensures ParseAddress(s).None?
  {
    if s != "" && NumberAt(s, 0, Hex, 0xffff).Some? {
      var n := NumberAt(s, 0, Hex, 0xffff).value;
      assert AfterGroup(s, |s|, [n.value], None) == Finish([n.value], None);
      assert [] + [n.value] == [n.value];
    }
  }
}
