/** `OutputPrefix` of the network data commands, whose lines `prefix add` can read. */
module NetworkData {
  import opened Base
  import opened Numbers
  import opened CommandLine
  import opened HexText
  import opened Ip6Text
  import opened Ip6Laws
  import opened PrefixArguments

  // ---------- Flags ----------

  /** The letters that are documented for `prefix add`. */
  function Letter(f: Flag): char {
    match f
    case Preferred => 'p'
    case Slaac => 'a'
    case Dhcp => 'd'
    case Configure => 'c'
    case DefaultRoute => 'r'
    case OnMesh => 'o'
    case Stable => 's'
    case NdDns => 'n'
    case DomainPrefix => 'D'
  }

  /** The place of a flag in the order of printing. */
  function Rank(f: Flag): nat {
    match f
    case Preferred => 0
    case Slaac => 1
    case Dhcp => 2
    case Configure => 3
    case DefaultRoute => 4
    case OnMesh => 5
    case Stable => 6
    case NdDns => 7
    case DomainPrefix => 8
  }

  predicate IsLetterOf(c: char, flags: set<Flag>) {
    exists f :: f in flags && c == Letter(f)
  }

  /** The letters of flags, among them all of rank below `n`. */
  ghost predicate AreLettersUpTo(letters: string, flags: set<Flag>, n: nat) {
    && (forall f :: f in flags && Rank(f) < n ==> Letter(f) in letters)
    && (forall k :: 0 <= k < |letters| ==> IsLetterOf(letters[k], flags))
  }

  ghost predicate AreLettersOf(letters: string, flags: set<Flag>) {
    && (forall f :: f in flags ==> Letter(f) in letters)
    && (forall k :: 0 <= k < |letters| ==> IsLetterOf(letters[k], flags))
  }

  lemma FirstLetters(flags: set<Flag>)
    ensures AreLettersUpTo("", flags, 0)
  {
  }

  lemma AllLettersShown(letters: string, flags: set<Flag>)
    requires AreLettersUpTo(letters, flags, 9)
    ensures AreLettersOf(letters, flags)
  {
    assert forall f :: Rank(f) < 9;
  }

  lemma NextLetter(letters: string, flags: set<Flag>, flag: Flag)
    requires AreLettersUpTo(letters, flags, Rank(flag))
    ensures AreLettersUpTo(if flag in flags then letters + [Letter(flag)] else letters, flags, Rank(flag) + 1)
  {
    assert forall f :: Rank(f) == Rank(flag) ==> f == flag;
    hide Letter, Rank;
    var more := letters + [Letter(flag)];
    if flag in flags {
      assert more[|letters|] == Letter(flag);
      assert IsLetterOf(more[|letters|], flags);
    }
  }

  /** One branch for each flag. */
  method OutputFlags(flags: set<Flag>) returns (letters: string)
    ensures AreLettersOf(letters, flags)
  {
    hide AreLettersOf, AreLettersUpTo;
    FirstLetters(flags);
    letters := "";
    NextLetter(letters, flags, Preferred);
    if Preferred in flags {
      letters := letters + "p";
    }
    NextLetter(letters, flags, Slaac);
    if Slaac in flags {
      letters := letters + "a";
    }
    NextLetter(letters, flags, Dhcp);
    if Dhcp in flags {
      letters := letters + "d";
    }
    NextLetter(letters, flags, Configure);
    if Configure in flags {
      letters := letters + "c";
    }
    NextLetter(letters, flags, DefaultRoute);
    if DefaultRoute in flags {
      letters := letters + "r";
    }
    NextLetter(letters, flags, OnMesh);
    if OnMesh in flags {
      letters := letters + "o";
    }
    NextLetter(letters, flags, Stable);
    if Stable in flags {
      letters := letters + "s";
    }
    NextLetter(letters, flags, NdDns);
    if NdDns in flags {
      letters := letters + "n";
    }
    NextLetter(letters, flags, DomainPrefix);
    if DomainPrefix in flags {
      letters := letters + "D";
    }
    AllLettersShown(letters, flags);
  }

  lemma LetterNamesFlag(f: Flag, backbone: bool)
    ensures FlagOf(Letter(f), backbone) == if f == DomainPrefix && !backbone then None else Some(f)
    ensures Letter(f) !in " \t\r\n\\"
  {
    Characters(Letter(f));
  }

  /** The flag that is named by the letter at index `k`, if any. */
  lemma LetterAt(letters: string, flags: set<Flag>, backbone: bool, k: nat) returns (f: Flag)
    requires AreLettersOf(letters, flags) && k < |letters|
    ensures f in flags && FlagOf(letters[k], backbone) == if f == DomainPrefix && !backbone then None else Some(f)
    ensures letters[k] !in " \t\r\n\\"
  {
    hide FlagOf;
    assert IsLetterOf(letters[k], flags);
    var g :| g in flags && letters[k] == Letter(g);
    LetterNamesFlag(g, backbone);
    f := g;
  }

  lemma LetterOf(letters: string, flags: set<Flag>, backbone: bool, f: Flag) returns (k: nat)
    requires AreLettersOf(letters, flags) && f in flags
    ensures k < |letters| && FlagOf(letters[k], backbone) == if f == DomainPrefix && !backbone then None else Some(f)
  {
    hide Letter, FlagOf;
    LetterNamesFlag(f, backbone);
    k :| 0 <= k < |letters| && letters[k] == Letter(f);
  }

  /** The letters name the flags again; a build without backbone router rejects them if `D` is among them. */
  lemma LettersNameFlags(letters: string, flags: set<Flag>, backbone: bool)
    requires AreLettersOf(letters, flags)
    ensures IsFlags(letters, backbone) <==> backbone || DomainPrefix !in flags
    ensures IsFlags(letters, backbone) ==> FlagsOf(letters, backbone) == flags
  {
    hide AreLettersOf, FlagOf;
    if DomainPrefix in flags && !backbone {
      var k := LetterOf(letters, flags, backbone, DomainPrefix);
    } else {
      forall k | 0 <= k < |letters|
        ensures FlagOf(letters[k], backbone).Some? && FlagOf(letters[k], backbone).value in flags
      {
        var f := LetterAt(letters, flags, backbone, k);
      }
      forall f | f in flags ensures f in FlagsOf(letters, backbone) {
        var k := LetterOf(letters, flags, backbone, f);
      }
    }
  }

  lemma LettersArePlain(letters: string, flags: set<Flag>)
    requires AreLettersOf(letters, flags)
    ensures letters == "" || IsPlainWord(letters)
  {
    hide AreLettersOf, FlagOf;
    forall k | 0 <= k < |letters| ensures letters[k] !in " \t\r\n\\" {
      var f := LetterAt(letters, flags, true, k);
    }
  }

  // ---------- The line ----------

  /** The four words that are printed, and zeros. */
  function Cut(a: Address): Address {
    a[..4] + [0, 0, 0, 0]
  }

  function PreferenceText(preference: Preference): string {
    match preference
    case Low => "low"
    case Medium => "med"
    case High => "high"
  }

  /** The printed prefix is read as an argument: its first four words and its length. */
  lemma PrefixReadsBack(prefix: Prefix)
    ensures var text := Join(prefix.address[..4]) + "::/" + Text(prefix.length, Decimal);
            PrefixArgument(text) == Ok(Prefix(Cut(prefix.address), prefix.length)) && IsPlainWord(text)
  {
    hide ParseAddress, Join, Text, SlashIndex, IsPlainWord;
    var a, digits := Cut(prefix.address), Text(prefix.length, Decimal);
    var head := Join(a[..4]) + "::";
    var text := head + "/" + digits;
    assert a[..4] == prefix.address[..4] && Join(a[..4]) + "::/" + digits == text;
    CutIsCompressed(a);
    ShortAndPlain(a[..4], prefix.length);
    SlashAfter(head, digits);
    assert text[..|head|] == head && text[|head| + 1..] == digits;
    NumberOfText(prefix.length);
  }

  lemma CutIsCompressed(a: Address)
    requires forall k :: 4 <= k < 8 ==> a[k] == 0
    ensures ParseAddress(Join(a[..4]) + "::") == Some(a)
  {
    hide ParseAddress;
    ParseCompressedForm(a, 4, 8, false);
    assert a[8..] == [] && Join([]) == "";
    hide Join;
    assert Join(a[..4]) + "::" + "" == Join(a[..4]) + "::";
  }

  lemma {:induction false} SlashAfter(head: string, rest: string)
    requires '/' !in head
    ensures SlashIndex(head + "/" + rest) == |head|
  {
    if head == "" {
      assert head + "/" + rest == "/" + rest;
    } else {
      assert (head + "/" + rest)[1..] == head[1..] + "/" + rest;
      SlashAfter(head[1..], rest);
    }
  }

  lemma ShortAndPlain(ws: seq<Uint16>, length: Byte)
    requires |ws| == 4
    ensures var head, digits := Join(ws) + "::", Text(length, Decimal);
            |head| < MAX_ADDRESS_TEXT && '/' !in head && IsPlainWord(head + "/" + digits)
  {
    var words, digits := Join(ws), Text(length, Decimal);
    JoinLength(ws);
    hide Join, Text;
    forall k | 0 <= k < |words| ensures words[k] != '/' && words[k] !in " \t\r\n\\" {
      JoinChars(ws, k);
      Characters(words[k]);
    }
    forall k | 0 <= k < |digits| ensures digits[k] !in " \t\r\n\\" {
      TextDigits(length, Decimal, k);
      Characters(digits[k]);
    }
    Characters(':');
    Characters('/');
    var text := words + "::" + "/" + digits;
    forall k | 0 <= k < |text| ensures text[k] !in " \t\r\n\\" {
      assert text[k] == if k < |words| then words[k] else if k < |words| + 2 then ':'
                        else if k == |words| + 2 then '/' else digits[k - |words| - 3];
    }
  }

  /** What `prefix add` makes of the arguments: the configuration, as far as the prefix is printed. */
  ghost predicate Restores(args: seq<string>, config: Config) {
    forall backbone :: Described(args, backbone) ==
      if DomainPrefix in config.flags && !backbone then None
      else Some(config.(prefix := Prefix(Cut(config.prefix.address), config.prefix.length)))
  }

  lemma OptionsDescribe(text: string, letters: string, keyword: string, config: Config, backbone: bool)
    requires PrefixArgument(text) == Ok(config.prefix)
    requires AreLettersOf(letters, config.flags) && Keyword(keyword) == Some(config.preference)
    ensures Described([text] + (if letters == "" then [] else [letters]) + [keyword], backbone) ==
            if DomainPrefix in config.flags && !backbone then None else Some(config)
  {
    LettersNameFlags(letters, config.flags, backbone);
    LettersNameFlags(letters, config.flags, true);
    hide PrefixArgument, AreLettersOf, IsFlags, FlagsOf, Keyword, AreOptions, AllFlags, LastPreference;
    OptionsOf(letters, keyword, backbone);
    FirstArgument(text, if letters == "" then [] else [letters], [keyword]);
  }

  lemma FirstArgument(text: string, a: seq<string>, b: seq<string>)
    ensures var args := [text] + a + b; args[0] == text && args[1..] == a + b
  {
  }

  lemma LineRestores(config: Config, letters: string)
    requires AreLettersOf(letters, config.flags)
    ensures var text := Join(config.prefix.address[..4]) + "::/" + Text(config.prefix.length, Decimal);
            Restores([text] + (if letters == "" then [] else [letters]) + [PreferenceText(config.preference)], config)
  {
    hide PrefixArgument, AreLettersOf, Keyword, Described, Join, Text, IsPlainWord, Cut;
    var text := Join(config.prefix.address[..4]) + "::/" + Text(config.prefix.length, Decimal);
    PrefixReadsBack(config.prefix);
    KeywordIs(config.preference);
    var cut := config.(prefix := Prefix(Cut(config.prefix.address), config.prefix.length));
    OptionsDescribe(text, letters, PreferenceText(config.preference), cut, true);
    OptionsDescribe(text, letters, PreferenceText(config.preference), cut, false);
  }

  lemma KeywordIs(preference: Preference)
    ensures Keyword(PreferenceText(preference)) == Some(preference) && IsPlainWord(PreferenceText(preference))
  {
    var text := PreferenceText(preference);
    assert |"low"| == 3 == |"med"| && |"high"| == 4 && "low"[0] != "med"[0];
    forall k | 0 <= k < |text| ensures text[k] !in " \t\r\n\\" {
      Characters(text[k]);
    }
  }

  lemma OptionsOf(letters: string, keyword: string, backbone: bool)
    requires Keyword(keyword).Some? && IsFlags(letters, true)
    ensures var options := (if letters == "" then [] else [letters]) + [keyword];
            && (AreOptions(options, backbone) <==> IsFlags(letters, backbone))
            && AllFlags(options, backbone) == FlagsOf(letters, backbone)
            && LastPreference(options) == Keyword(keyword).value
  {
    KeywordsAreNotFlags(letters, true);
    hide Keyword, FlagOf;
    var options := (if letters == "" then [] else [letters]) + [keyword];
    if letters != "" {
      assert options == [letters, keyword] && options[0] == letters && options[1] == keyword;
    } else {
      assert options == [keyword] && options[0] == keyword;
    }
  }

  /** Four digits, as the format `%04x` prints a 16-bit number. */
  function Hex4(n: Uint16): string {
    HexOf([n / 0x100, n % 0x100])
  }

  lemma Hex4IsPlain(n: Uint16)
    ensures IsPlainWord(Hex4(n)) && HexDecode(Hex4(n)) == Some([n / 0x100, n % 0x100])
  {
    var text := Hex4(n);
    HexReadsBack([n / 0x100, n % 0x100]);
    forall k | 0 <= k < |text| ensures text[k] !in " \t\r\n\\" {
      HexChars([n / 0x100, n % 0x100], k);
      Characters(text[k]);
    }
  }

  lemma LineArguments(text: string, letters: string, keyword: string, last: string)
    requires IsPlainWord(text) && (letters == "" || IsPlainWord(letters)) && IsPlainWord(keyword) && IsPlainWord(last)
    ensures Arguments(text + " " + letters + " " + keyword + " " + last) ==
            [text] + (if letters == "" then [] else [letters]) + [keyword] + [last]
  {
    hide Arguments, IsPlainWord;
    var line := text + " " + letters + " " + keyword + " " + last;
    ArgumentsOfPlainWord(last);
    ArgumentsCons(keyword, " ", last);
    if letters == "" {
      ArgumentsCons(text, "  ", keyword + " " + last);
      assert line == text + "  " + (keyword + " " + last);
    } else {
      ArgumentsCons(letters, " ", keyword + " " + last);
      ArgumentsCons(text, " ", letters + " " + (keyword + " " + last));
      assert line == text + " " + (letters + " " + (keyword + " " + last));
    }
  }

  /**
   * The line for a prefix, up to its end. Without its last word, which shows the node that registered the
   * prefix, the line describes the configuration to `prefix add`, as far as the prefix is printed.
   */
  method OutputPrefix(config: Config, rloc16: Uint16) returns (line: string)
    ensures var args := Arguments(line);
            && |args| > 2 && HexDecode(args[|args| - 1]) == Some([rloc16 / 0x100, rloc16 % 0x100])
            && Restores(args[..|args| - 1], config)
  {
    var text := Join(config.prefix.address[..4]) + "::/" + Text(config.prefix.length, Decimal);
    var letters := OutputFlags(config.flags);
    var keyword;
    match config.preference {
      case Low => keyword := "low";
      case Medium => keyword := "med";
      case High => keyword := "high";
    }
    line := text + " " + letters + " " + keyword + " " + Hex4(rloc16);
    assert keyword == PreferenceText(config.preference);
    hide Arguments, Restores, Join, Text, HexDecode, Hex4, IsPlainWord, AreLettersOf, PreferenceText, PrefixArgument,
      Keyword, Cut;
    KeywordIs(config.preference);
    PrefixReadsBack(config.prefix);
    LettersArePlain(letters, config.flags);
    Hex4IsPlain(rloc16);
    LineArguments(text, letters, keyword, Hex4(rloc16));
    LineRestores(config, letters);
    WithoutLast([text] + (if letters == "" then [] else [letters]) + [keyword], Hex4(rloc16));
  }

  /** When the configuration comes back unchanged. */
  lemma SamePrefixIff(args: seq<string>, config: Config, backbone: bool)
    requires Restores(args, config)
    ensures Described(args, backbone) == Some(config) <==>
            (forall k :: 4 <= k < 8 ==> config.prefix.address[k] == 0) && (backbone || DomainPrefix !in config.flags)
  {
    hide Described;
    var a := config.prefix.address;
    if forall k :: 4 <= k < 8 ==> a[k] == 0 {
      assert Cut(a) == a;
    } else {
      var k :| 4 <= k < 8 && a[k] != 0;
      assert Cut(a)[k] == 0;
    }
  }

  lemma WithoutLast(args: seq<string>, last: string)
    ensures (args + [last])[..|args + [last]| - 1] == args
  {
  }
}
