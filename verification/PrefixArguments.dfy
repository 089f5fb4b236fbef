/** The arguments of `prefix add`: a prefix, then flag letters and preference keywords in any order. */
module PrefixArguments {
  import opened Base
  import opened Numbers
  import opened Ip6Text

  // ---------- Prefixes ----------

  datatype Prefix = Prefix(address: Address, length: Byte)

  const MAX_ADDRESS_TEXT: nat := 45

  function SlashIndex(s: string): (k: nat)
    ensures k <= |s| && (k < |s| ==> s[k] == '/')
  {
    if s == "" || s[0] == '/' then 0 else 1 + SlashIndex(s[1..])
  }

  /** `ParseAsIp6Prefix`: a malformed address is an invalid argument here. */
  function PrefixArgument(s: string): Result<Prefix> {
    var slash := SlashIndex(s);
    if slash == |s| || slash >= MAX_ADDRESS_TEXT || ParseAddress(s[..slash]).None? then Err(InvalidArgs)
    else
      match ParseUint(s[slash + 1..], UINT8_MAX)
      case Err(error) => Err(error)
      case Ok(length) => Ok(Prefix(ParseAddress(s[..slash]).value, length))
  }

  // ---------- Meaning of the other arguments ----------

  datatype Preference = Low | Medium | High

  datatype Flag = Preferred | Slaac | Dhcp | Configure | DefaultRoute | OnMesh | Stable | NdDns | DomainPrefix

  datatype Config = Config(prefix: Prefix, preference: Preference, flags: set<Flag>)

  function Keyword(arg: string): Option<Preference> {
    if arg == "high" then Some(High)
    else if arg == "med" then Some(Medium)
    else if arg == "low" then Some(Low)
    else None
  }

  /** The letter `D` is known only to backbone router builds. */
  function FlagOf(c: char, backbone: bool): Option<Flag> {
    match c
    case 'p' => Some(Preferred)
    case 'a' => Some(Slaac)
    case 'd' => Some(Dhcp)
    case 'c' => Some(Configure)
    case 'r' => Some(DefaultRoute)
    case 'o' => Some(OnMesh)
    case 's' => Some(Stable)
    case 'n' => Some(NdDns)
    case 'D' => if backbone then Some(DomainPrefix) else None
    case _ => None
  }

  predicate IsFlags(arg: string, backbone: bool) {
    forall k :: 0 <= k < |arg| ==> FlagOf(arg[k], backbone).Some?
  }

  /** The flags that the letters of an argument name; other characters name none. */
  function FlagsOf(arg: string, backbone: bool): set<Flag> {
    set k | 0 <= k < |arg| && FlagOf(arg[k], backbone).Some? :: FlagOf(arg[k], backbone).value
  }

  predicate IsOption(arg: string, backbone: bool) {
    Keyword(arg).Some? || IsFlags(arg, backbone)
  }

  predicate AreOptions(args: seq<string>, backbone: bool) {
    forall k :: 0 <= k < |args| ==> IsOption(args[k], backbone)
  }

  /** The union of all flag letters. */
  function AllFlags(args: seq<string>, backbone: bool): set<Flag> {
    set k, f | 0 <= k < |args| && Keyword(args[k]).None? && f in FlagsOf(args[k], backbone) :: f
  }

  /** The last keyword, or medium. */
  function LastPreference(args: seq<string>): Preference {
    if args == [] then Medium
    else
      var last := Keyword(args[|args| - 1]);
      if last.Some? then last.value else LastPreference(args[..|args| - 1])
  }

  /** The configuration that the arguments of `prefix add` describe. */
  function Described(args: seq<string>, backbone: bool): Option<Config> {
    if args != [] && PrefixArgument(args[0]).Ok? && AreOptions(args[1..], backbone) then
      Some(Config(PrefixArgument(args[0]).value, LastPreference(args[1..]), AllFlags(args[1..], backbone)))
    else
      None
  }

  // ---------- The command ----------

  /**
   * `added` is the configuration handed to `otBorderRouterAddOnMeshPrefix`, if the call is made, and
   * `stackError` is what that call returns.
   */
  method ProcessPrefixAdd(args: seq<string>, backbone: bool, stackError: Error)
    returns (error: Error, added: Option<Config>)
    ensures added == Described(args, backbone)
    ensures error ==
            if added.Some? then stackError
            else if args != [] && PrefixArgument(args[0]).Err? then PrefixArgument(args[0]).error
            else InvalidArgs
  {
    added := None;
    if |args| == 0 {
      return InvalidArgs, None;
    }
    var prefix := PrefixArgument(args[0]);
    if prefix.Err? {
      return prefix.error, None;
    }
    var config := Config(prefix.value, Medium, {});
    ghost var options := args[1..];
    NoOptions(backbone);
    hide AreOptions, IsOption, AllFlags, LastPreference, FlagsOf, Keyword, PrefixArgument, Described;
    DescribedIs(args, backbone);
    assert options[..0] == [];
    var argcur: nat := 1;
    while argcur < |args|
      invariant 1 <= argcur <= |args|
      invariant AreOptions(options[..argcur - 1], backbone)
      invariant config == Config(prefix.value, LastPreference(options[..argcur - 1]),
                                 AllFlags(options[..argcur - 1], backbone))
    {
      OneMore(options, argcur - 1, backbone);
      var ok;
      ok, config := ApplyOption(args[argcur], backbone, config);
      if !ok {
        BadOption(options, argcur - 1, backbone);
        return InvalidArgs, None;
      }
      argcur := argcur + 1;
    }
    assert options[..argcur - 1] == options;
    return stackError, Some(config);
  }

  /** The body of the loop: a keyword sets the preference, letters add flags. */
  method ApplyOption(arg: string, backbone: bool, before: Config) returns (ok: bool, config: Config)
    ensures ok <==> IsOption(arg, backbone)
    ensures ok ==> config == Config(before.prefix,
                                    if Keyword(arg).Some? then Keyword(arg).value else before.preference,
                                    before.flags + if Keyword(arg).Some? then {} else FlagsOf(arg, backbone))
  {
    hide IsFlags, FlagsOf;
    ok, config := true, before;
    if arg == "high" {
      config := config.(preference := High);
    } else if arg == "med" {
      config := config.(preference := Medium);
    } else if arg == "low" {
      config := config.(preference := Low);
    } else {
      var flags;
      ok, flags := ParseFlagLetters(arg, backbone, before.flags);
      config := config.(flags := flags);
    }
  }

  lemma DescribedIs(args: seq<string>, backbone: bool)
    requires args != [] && PrefixArgument(args[0]).Ok?
    ensures Described(args, backbone) ==
            if AreOptions(args[1..], backbone) then
              Some(Config(PrefixArgument(args[0]).value, LastPreference(args[1..]), AllFlags(args[1..], backbone)))
            else None
  {
  }

  lemma NoOptions(backbone: bool)
    ensures AreOptions([], backbone) && AllFlags([], backbone) == {} && LastPreference([]) == Medium
  {
  }

  lemma BadOption(args: seq<string>, k: nat, backbone: bool)
    requires k < |args| && !IsOption(args[k], backbone)
    ensures !AreOptions(args, backbone)
  {
  }

  /** The inner loop: adds the flag of each letter until a character names none. */
  method ParseFlagLetters(arg: string, backbone: bool, before: set<Flag>) returns (ok: bool, flags: set<Flag>)
    ensures ok <==> IsFlags(arg, backbone)
    ensures ok ==> flags == before + FlagsOf(arg, backbone)
  {
    hide FlagOf;
    flags := before;
    for k := 0 to |arg|
      invariant IsFlags(arg[..k], backbone) && flags == before + FlagsOf(arg[..k], backbone)
    {
      var flag := FlagOf(arg[k], backbone);
      if flag.None? {
        return false, flags;
      }
      OneMoreLetter(arg, k, backbone);
      flags := flags + {flag.value};
    }
    assert arg[..|arg|] == arg;
    ok := true;
  }

  lemma OneMoreLetter(arg: string, k: nat, backbone: bool)
    requires k < |arg| && FlagOf(arg[k], backbone).Some? && IsFlags(arg[..k], backbone)
    ensures IsFlags(arg[..k + 1], backbone)
    ensures FlagsOf(arg[..k + 1], backbone) == FlagsOf(arg[..k], backbone) + {FlagOf(arg[k], backbone).value}
  {
    hide FlagOf;
    assert arg[..k + 1] == arg[..k] + [arg[k]];
    forall f | f in FlagsOf(arg[..k], backbone) ensures f in FlagsOf(arg[..k + 1], backbone) {
      var j :| 0 <= j < k && FlagOf(arg[..k][j], backbone) == Some(f);
      assert arg[..k + 1][j] == arg[..k][j];
    }
    assert arg[..k + 1][k] == arg[k];
  }

  /** What the option at index `n` adds to those before it. */
  lemma OneMore(options: seq<string>, n: nat, backbone: bool)
    requires n < |options|
    ensures AreOptions(options[..n + 1], backbone) <==>
            AreOptions(options[..n], backbone) && IsOption(options[n], backbone)
    ensures LastPreference(options[..n + 1]) ==
            if Keyword(options[n]).Some? then Keyword(options[n]).value else LastPreference(options[..n])
    ensures AllFlags(options[..n + 1], backbone) ==
            AllFlags(options[..n], backbone) + if Keyword(options[n]).Some? then {} else FlagsOf(options[n], backbone)
    ensures Keyword(options[n]).Some? ==> IsOption(options[n], backbone)
  {
    hide FlagsOf, Keyword, IsFlags;
    var arg, args, all := options[n], options[..n], options[..n + 1];
    assert all[..n] == args;
    assert all[n] == arg;
    forall f | f in AllFlags(args, backbone) ensures f in AllFlags(all, backbone) {
      var k :| 0 <= k < |args| && Keyword(args[k]).None? && f in FlagsOf(args[k], backbone);
      assert all[k] == args[k];
    }
    if AreOptions(all, backbone) {
      forall k | 0 <= k < |args| ensures IsOption(args[k], backbone) {
        assert all[k] == args[k];
      }
    }
  }

  // ---------- Laws ----------

  /** No keyword can be spelled with flag letters, so an argument is never both. */
  lemma KeywordsAreNotFlags(arg: string, backbone: bool)
    requires IsFlags(arg, backbone)
    ensures Keyword(arg).None?
  {
    assert arg != "" ==> FlagOf(arg[0], backbone).Some?;
  }

  /** The keyword arguments, in order. */
  function Keywords(args: seq<string>): seq<string> {
    if args == [] then []
    else Keywords(args[..|args| - 1]) + if Keyword(args[|args| - 1]).Some? then [args[|args| - 1]] else []
  }

  /** The characters of the other arguments. */
  function Letters(args: seq<string>): set<char> {
    set k, c | 0 <= k < |args| && Keyword(args[k]).None? && c in args[k] :: c
  }

  lemma {:induction false} LastOfKeywords(args: seq<string>)
    ensures LastPreference(args) == LastPreference(Keywords(args))
  {
    if args != [] {
      var init, last := args[..|args| - 1], args[|args| - 1];
      LastOfKeywords(init);
      if Keyword(last).Some? {
        assert Keywords(args)[|Keywords(args)| - 1] == last;
      } else {
        assert Keywords(args) == Keywords(init);
      }
    }
  }

  lemma FlagsFromLetters(args: seq<string>, backbone: bool, f: Flag)
    ensures f in AllFlags(args, backbone) <==> exists c :: c in Letters(args) && FlagOf(c, backbone) == Some(f)
  {
    hide FlagOf, Keyword;
    if f in AllFlags(args, backbone) {
      var k :| 0 <= k < |args| && Keyword(args[k]).None? && f in FlagsOf(args[k], backbone);
      var j :| 0 <= j < |args[k]| && FlagOf(args[k][j], backbone) == Some(f);
      var c := args[k][j];
      assert c in args[k] && c in Letters(args);
    }
    if c :| c in Letters(args) && FlagOf(c, backbone) == Some(f) {
      var k :| 0 <= k < |args| && Keyword(args[k]).None? && c in args[k];
      var j :| 0 <= j < |args[k]| && args[k][j] == c;
      assert f in FlagsOf(args[k], backbone);
    }
  }

  /**
   * Reordering, splitting or merging flag arguments never changes the configuration: it depends
   * only on which letters occur and on the sequence of keywords.
   */
  lemma OnlyLettersAndKeywordsMatter(args: seq<string>, others: seq<string>, backbone: bool)
    requires Letters(args) == Letters(others) && Keywords(args) == Keywords(others)
    ensures AreOptions(args, backbone) <==> AreOptions(others, backbone)
    ensures AllFlags(args, backbone) == AllFlags(others, backbone)
    ensures LastPreference(args) == LastPreference(others)
  {
    LastOfKeywords(args);
    LastOfKeywords(others);
    forall f ensures f in AllFlags(args, backbone) <==> f in AllFlags(others, backbone) {
      FlagsFromLetters(args, backbone, f);
      FlagsFromLetters(others, backbone, f);
    }
    OptionsFromLetters(args, backbone);
    OptionsFromLetters(others, backbone);
  }

  lemma OptionsFromLetters(args: seq<string>, backbone: bool)
    ensures AreOptions(args, backbone) <==> forall c :: c in Letters(args) ==> FlagOf(c, backbone).Some?
  {
    hide FlagOf, Keyword;
    if forall c :: c in Letters(args) ==> FlagOf(c, backbone).Some? {
      forall k | 0 <= k < |args| ensures IsOption(args[k], backbone) {
        if Keyword(args[k]).None? {
          forall j | 0 <= j < |args[k]| ensures FlagOf(args[k][j], backbone).Some? {
            var c := args[k][j];
            assert c in args[k] && c in Letters(args);
          }
        }
      }
    } else {
      var c :| c in Letters(args) && FlagOf(c, backbone).None?;
      var k :| 0 <= k < |args| && Keyword(args[k]).None? && c in args[k];
      assert !IsOption(args[k], backbone);
    }
  }

  /** Splitting one flag argument in two is one instance. */
  lemma SplitFlags(before: seq<string>, x: string, y: string, after: seq<string>, backbone: bool)
    requires IsFlags(x + y, backbone)
    ensures var args, others := before + [x + y] + after, before + [x, y] + after;
            && (AreOptions(args, backbone) <==> AreOptions(others, backbone))
            && AllFlags(args, backbone) == AllFlags(others, backbone)
            && LastPreference(args) == LastPreference(others)
  {
    hide Letters, Keywords, AreOptions, AllFlags, LastPreference;
    SplitKeepsLetters(before, x, y, after, backbone);
    OnlyLettersAndKeywordsMatter(before + [x + y] + after, before + [x, y] + after, backbone);
  }

  lemma SplitKeepsLetters(before: seq<string>, x: string, y: string, after: seq<string>, backbone: bool)
    requires IsFlags(x + y, backbone)
    ensures Letters(before + [x + y] + after) == Letters(before + [x, y] + after)
    ensures Keywords(before + [x + y] + after) == Keywords(before + [x, y] + after)
  {
    SplitKeepsFlags(x, y, backbone);
    hide IsFlags, Letters, Keywords, Keyword;
    KeywordsAreNotFlags(x + y, backbone);
    KeywordsAreNotFlags(x, backbone);
    KeywordsAreNotFlags(y, backbone);
    LettersOfOne(x + y);
    LettersOfOne(x);
    LettersOfOne(y);
    LettersConcat([x], [y]);
    KeywordsConcat([x], [y]);
    assert [x] + [y] == [x, y];
    PartsOfThree(before, [x + y], after);
    PartsOfThree(before, [x, y], after);
  }

  lemma PartsOfThree(a: seq<string>, b: seq<string>, c: seq<string>)
    ensures Letters(a + b + c) == Letters(a) + Letters(b) + Letters(c)
    ensures Keywords(a + b + c) == Keywords(a) + Keywords(b) + Keywords(c)
  {
    hide Letters, Keywords;
    LettersConcat(a + b, c);
    LettersConcat(a, b);
    KeywordsConcat(a + b, c);
    KeywordsConcat(a, b);
  }

  lemma SplitKeepsFlags(x: string, y: string, backbone: bool)
    requires IsFlags(x + y, backbone)
    ensures IsFlags(x, backbone) && IsFlags(y, backbone)
    ensures (set c | c in x + y) == (set c | c in x) + (set c | c in y)
  {
    hide FlagOf;
    assert forall k :: 0 <= k < |x| ==> x[k] == (x + y)[k];
    assert forall k :: 0 <= k < |y| ==> y[k] == (x + y)[|x| + k];
  }

  /** Moving a flag argument past any other arguments is another. */
  lemma MoveFlags(before: seq<string>, x: string, middle: seq<string>, after: seq<string>, backbone: bool)
    requires IsFlags(x, backbone)
    ensures var args, others := before + [x] + middle + after, before + middle + [x] + after;
            && (AreOptions(args, backbone) <==> AreOptions(others, backbone))
            && AllFlags(args, backbone) == AllFlags(others, backbone)
            && LastPreference(args) == LastPreference(others)
  {
    hide IsFlags, Letters, Keywords, AreOptions, AllFlags, LastPreference;
    KeywordsAreNotFlags(x, backbone);
    LettersOfOne(x);
    PartsOfFour(before, [x], middle, after);
    PartsOfFour(before, middle, [x], after);
    assert Keywords(before) + [] + Keywords(middle) == Keywords(before) + Keywords(middle) + [];
    OnlyLettersAndKeywordsMatter(before + [x] + middle + after, before + middle + [x] + after, backbone);
  }

  lemma PartsOfFour(a: seq<string>, b: seq<string>, c: seq<string>, d: seq<string>)
    ensures Letters(a + b + c + d) == Letters(a) + Letters(b) + Letters(c) + Letters(d)
    ensures Keywords(a + b + c + d) == Keywords(a) + Keywords(b) + Keywords(c) + Keywords(d)
  {
    hide Letters, Keywords;
    PartsOfThree(a, b, c);
    LettersConcat(a + b + c, d);
    KeywordsConcat(a + b + c, d);
  }

  lemma LettersOfOne(x: string)
    requires Keyword(x).None?
    ensures Letters([x]) == set c | c in x
    ensures Keywords([x]) == []
  {
    assert [x][0] == x && [x][..0] == [];
  }

  lemma LettersConcat(a: seq<string>, b: seq<string>)
    ensures Letters(a + b) == Letters(a) + Letters(b)
  {
    hide Keyword;
    forall c | c in Letters(a) ensures c in Letters(a + b) {
      var k :| 0 <= k < |a| && Keyword(a[k]).None? && c in a[k];
      assert (a + b)[k] == a[k];
    }
    forall c | c in Letters(b) ensures c in Letters(a + b) {
      var k :| 0 <= k < |b| && Keyword(b[k]).None? && c in b[k];
      assert (a + b)[|a| + k] == b[k];
    }
  }

  lemma {:induction false} KeywordsConcat(a: seq<string>, b: seq<string>)
    ensures Keywords(a + b) == Keywords(a) + Keywords(b)
  {
    hide Keyword;
    if b == [] {
      assert a + b == a;
    } else {
      KeywordsConcat(a, b[..|b| - 1]);
      assert (a + b)[..|a + b| - 1] == a + b[..|b| - 1];
    }
  }
}
