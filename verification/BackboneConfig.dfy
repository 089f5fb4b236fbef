/** `bbr config` with arguments: key/value pairs that update the local backbone router configuration. */
module BackboneConfig {
  import opened Base
  import opened Numbers
  import opened CommandLine

  datatype Config = Config(server16: Uint16, sequenceNumber: Byte, reregistrationDelay: Uint16, mlrTimeout: Uint32)

  datatype Key = SeqNo | Delay | Timeout

  function KeyOf(arg: string): Option<Key> {
    if arg == "seqno" then Some(SeqNo)
    else if arg == "delay" then Some(Delay)
    else if arg == "timeout" then Some(Timeout)
    else None
  }

  function MaxOf(key: Key): nat {
    match key
    case SeqNo => UINT8_MAX
    case Delay => UINT16_MAX
    case Timeout => UINT32_MAX
  }

  function Field(config: Config, key: Key): nat {
    match key
    case SeqNo => config.sequenceNumber
    case Delay => config.reregistrationDelay
    case Timeout => config.mlrTimeout
  }

  // ---------- Declarative meaning ----------

  ghost predicate IsPair(args: seq<string>, k: nat)
    requires 2 * k + 1 < |args|
  {
    KeyOf(args[2 * k]).Some? && ParseUint(args[2 * k + 1], MaxOf(KeyOf(args[2 * k]).value)).Ok?
  }

  /** Complete pairs of a known key and a value in its range. */
  ghost predicate ArePairs(args: seq<string>) {
    |args| % 2 == 0 && forall k :: 0 <= k < |args| / 2 ==> IsPair(args, k)
  }

  /** The value given last for a key, or what the field held before. */
  ghost function LastValue(args: seq<string>, key: Key, n: nat, before: nat): nat
    requires ArePairs(args) && n <= |args| / 2
  {
    if n == 0 then before
    else if IsPair(args, n - 1) && KeyOf(args[2 * (n - 1)]) == Some(key) then
      ParseUint(args[2 * (n - 1) + 1], MaxOf(key)).value
    else LastValue(args, key, n - 1, before)
  }

  /** `config` is `before` with the pairs applied: for each key its last value, other fields as before. */
  ghost predicate Applied(args: seq<string>, before: Config, config: Config)
    requires ArePairs(args)
  {
    && config.server16 == before.server16
    && forall key :: Field(config, key) == LastValue(args, key, |args| / 2, Field(before, key))
  }

  // ---------- The command ----------

  /**
   * `args` are the arguments after `config`, of which there is at least one. `set_` is the configuration
   * handed to `otBackboneRouterSetConfig`, if the call is made, and `stackError` what it returns.
   */
  method ProcessConfig(args: seq<string>, current: Config, stackError: Error)
    returns (error: Error, set_: Option<Config>)
    requires args != []
    ensures set_.Some? <==> ArePairs(args)
    ensures set_.Some? ==> Applied(args, current, set_.value)
    ensures error == if set_.Some? then stackError else InvalidArgs
  {
    var config := current;
    var argCur: nat := 0;
    while argCur < |args|
      invariant argCur <= |args| && argCur % 2 == 0
      invariant ArePairs(args[..argCur]) && Applied(args[..argCur], current, config)
    {
      if !(argCur + 1 < |args|) {
        return InvalidArgs, None;
      }
      ghost var k := argCur / 2;
      var key := KeyOf(args[argCur]);
      if key.None? {
        assert ArePairs(args) ==> IsPair(args, k);
        return InvalidArgs, None;
      }
      argCur := argCur + 1;
      var value := ParseUint(args[argCur], MaxOf(key.value));
      if value.Err? {
        assert ArePairs(args) ==> IsPair(args, k);
        return InvalidArgs, None;
      }
      ghost var before := config;
      config := match key.value
                case SeqNo => config.(sequenceNumber := value.value)
                case Delay => config.(reregistrationDelay := value.value)
                case Timeout => config.(mlrTimeout := value.value);
      OnePair(args, argCur - 1, current, before, config);
      argCur := argCur + 1;
    }
    assert args[..argCur] == args;
    return stackError, Some(config);
  }

  lemma OnePair(args: seq<string>, pos: nat, current: Config, before: Config, config: Config)
    requires pos + 1 < |args| && pos % 2 == 0
    requires KeyOf(args[pos]).Some? && ParseUint(args[pos + 1], MaxOf(KeyOf(args[pos]).value)).Ok?
    requires ArePairs(args[..pos]) && Applied(args[..pos], current, before)
    requires config.server16 == before.server16
    requires forall key :: (Field(config, key) ==
        if key == KeyOf(args[pos]).value then ParseUint(args[pos + 1], MaxOf(key)).value else Field(before, key))
    ensures ArePairs(args[..pos + 2]) && Applied(args[..pos + 2], current, config)
  {
    hide KeyOf, ParseUint, Field;
    var old_, new_, n := args[..pos], args[..pos + 2], pos / 2;
    forall k | 0 <= k < |new_| / 2 ensures IsPair(new_, k) {
      if k < n {
        assert IsPair(old_, k);
      }
    }
    forall key ensures Field(config, key) == LastValue(new_, key, n + 1, Field(current, key)) {
      SamePrefix(old_, new_, key, n, Field(current, key));
    }
  }

  lemma {:induction false} SamePrefix(args: seq<string>, more: seq<string>, key: Key, n: nat, before: nat)
    requires ArePairs(args) && ArePairs(more) && args <= more && n <= |args| / 2
    ensures LastValue(args, key, n, before) == LastValue(more, key, n, before)
  {
    hide KeyOf, ParseUint;
    if n > 0 {
      SamePrefix(args, more, key, n - 1, before);
    }
  }

  // ---------- Laws ----------

  lemma AppliedUnique(args: seq<string>, before: Config, a: Config, b: Config)
    requires ArePairs(args) && Applied(args, before, a) && Applied(args, before, b)
    ensures a == b
  {
    assert Field(a, SeqNo) == Field(b, SeqNo) && Field(a, Delay) == Field(b, Delay);
    assert Field(a, Timeout) == Field(b, Timeout);
  }

  /** `args` with the pairs at `p` and `p + 1` exchanged. */
  ghost predicate Exchanged(args: seq<string>, others: seq<string>, p: nat) {
    && 2 * p + 3 < |args| == |others|
    && args[2 * p] == others[2 * p + 2] && args[2 * p + 1] == others[2 * p + 3]
    && args[2 * p + 2] == others[2 * p] && args[2 * p + 3] == others[2 * p + 1]
    && forall j :: 0 <= j < |args| && !(2 * p <= j < 2 * p + 4) ==> args[j] == others[j]
  }

  lemma ExchangedPairs(args: seq<string>, others: seq<string>, p: nat)
    requires Exchanged(args, others, p) && ArePairs(args)
    ensures ArePairs(others)
  {
    hide KeyOf, ParseUint;
    forall k | 0 <= k < |others| / 2 ensures IsPair(others, k) {
      assert IsPair(args, if k == p then p + 1 else if k == p + 1 then p else k);
    }
  }

  lemma {:induction false} ExchangedValues(args: seq<string>, others: seq<string>, p: nat, key: Key, n: nat,
                                           before: nat)
    requires Exchanged(args, others, p) && ArePairs(args) && ArePairs(others)
    requires KeyOf(args[2 * p]) != KeyOf(args[2 * p + 2])
    requires n <= |args| / 2 && n != p + 1
    ensures LastValue(args, key, n, before) == LastValue(others, key, n, before)
  {
    hide KeyOf, ParseUint;
    if n == p + 2 {
      ExchangedValues(args, others, p, key, p, before);
      assert IsPair(args, p) && IsPair(args, p + 1) && IsPair(others, p) && IsPair(others, p + 1);
    } else if n > 0 {
      ExchangedValues(args, others, p, key, n - 1, before);
    }
  }

  /** Pairs with different keys may be given in either order. */
  lemma DifferentKeysCommute(args: seq<string>, others: seq<string>, p: nat, before: Config, config: Config)
    requires Exchanged(args, others, p) && ArePairs(args)
    requires KeyOf(args[2 * p]) != KeyOf(args[2 * p + 2])
    ensures ArePairs(others) && (Applied(args, before, config) <==> Applied(others, before, config))
  {
    hide KeyOf, ParseUint, LastValue;
    ExchangedPairs(args, others, p);
    forall key
      ensures LastValue(args, key, |args| / 2, Field(before, key)) ==
              LastValue(others, key, |args| / 2, Field(before, key))
    {
      ExchangedValues(args, others, p, key, |args| / 2, Field(before, key));
    }
  }

  // ---------- Printing the configuration ----------

  /** The format `%d` shows a 32-bit argument as a signed number. */
  function SignedText(x: Uint32): string {
    if x < 0x8000_0000 then Text(x, Decimal) else "-" + Text(0x1_0000_0000 - x, Decimal)
  }

  /** The first two words of a printed line, without the colon: a key and a value. */
  function PairOf(line: string): seq<string> {
    var args := Arguments(line);
    if |args| < 2 || args[0] == "" then [] else [args[0][..|args[0]| - 1], args[1]]
  }

  lemma TextIsPlain(n: nat)
    ensures IsPlainWord(Text(n, Decimal)) && Text(n, Decimal)[0] != '-'
  {
    var text := Text(n, Decimal);
    forall k | 0 <= k < |text| ensures text[k] !in " \t\r\n\\" && text[k] != '-' {
      TextDigits(n, Decimal, k);
      Characters(text[k]);
    }
  }

  lemma SignedTextIs(x: Uint32)
    ensures IsPlainWord(SignedText(x))
    ensures ParseUint(SignedText(x), UINT32_MAX) == if x < 0x8000_0000 then Ok(x) else Err(InvalidArgs)
  {
    if x < 0x8000_0000 {
      TextIsPlain(x);
      NumberOfText(x);
    } else {
      TextIsPlain(0x1_0000_0000 - x);
      hide Text, Value, IsPlainWord;
      MinusIsPlain(Text(0x1_0000_0000 - x, Decimal));
      NoNumber("-" + Text(0x1_0000_0000 - x, Decimal));
    }
  }

  lemma MinusIsPlain(digits: string)
    requires IsPlainWord(digits)
    ensures IsPlainWord("-" + digits)
  {
    var text := "-" + digits;
    Characters('-');
    forall k | 0 <= k < |text| ensures text[k] !in " \t\r\n\\" {
      assert text[k] == if k == 0 then '-' else digits[k - 1];
    }
  }

  lemma {:induction false} NoNumber(text: string)
    requires text != "" && text[0] == '-'
    ensures Value(text, Decimal).None?
  {
    if |text| > 1 {
      NoNumber(text[..|text| - 1]);
    }
  }

  lemma PairOfLine(key: string, gap: string, value: string, unit: string)
    requires IsPlainWord(key + ":") && IsGap(gap) && gap != "" && IsPlainWord(value)
    requires unit == "" || (unit != "" && IsSeparator(unit[0]))
    ensures PairOf(key + ":" + gap + value + unit) == [key, value]
  {
    hide Arguments, IsPlainWord, IsGap;
    var line := key + ":" + gap + value + unit;
    assert line == key + ":" + gap + (value + unit);
    ArgumentsCons(key + ":", gap, value + unit);
    assert (key + ":")[..|key|] == key;
    if unit == "" {
      assert value + unit == value;
      ArgumentsOfPlainWord(value);
    } else {
      assert value + unit == value + [unit[0]] + unit[1..];
      OneGap(unit[0]);
      ArgumentsCons(value, [unit[0]], unit[1..]);
    }
  }

  lemma OneGap(c: char)
    requires IsSeparator(c)
    ensures IsGap([c])
  {
  }

  lemma KeysArePlain()
    ensures IsPlainWord("seqno:") && IsPlainWord("delay:") && IsPlainWord("timeout:")
    ensures IsGap("    ") && IsGap("  ")
  {
    forall c: char | 'a' <= c <= 'z' || c == ':' ensures c !in " \t\r\n\\" {
      Characters(c);
    }
  }

  /** The pairs that name the three fields, as printed. */
  function PrintedPairs(config: Config): seq<string> {
    ["seqno", Text(config.sequenceNumber, Decimal), "delay", Text(config.reregistrationDelay, Decimal),
     "timeout", SignedText(config.mlrTimeout)]
  }

  lemma PrintedKeys()
    ensures KeyOf("seqno") == Some(SeqNo) && KeyOf("delay") == Some(Delay) && KeyOf("timeout") == Some(Timeout)
  {
  }

  lemma PrintedValues(config: Config)
    ensures ParseUint(Text(config.sequenceNumber, Decimal), UINT8_MAX) == Ok(config.sequenceNumber)
    ensures ParseUint(Text(config.reregistrationDelay, Decimal), UINT16_MAX) == Ok(config.reregistrationDelay)
  {
    NumberOfText(config.sequenceNumber);
    NumberOfText(config.reregistrationDelay);
    hide Number, Text;
  }

  lemma PairsReadBack(config: Config, before: Config)
    ensures var args := PrintedPairs(config);
            && (ArePairs(args) <==> config.mlrTimeout < 0x8000_0000)
            && (ArePairs(args) ==> Applied(args, before, config.(server16 := before.server16)))
  {
    var args := PrintedPairs(config);
    PrintedKeys();
    PrintedValues(config);
    SignedTextIs(config.mlrTimeout);
    hide KeyOf, ParseUint, Text, SignedText, IsPlainWord;
    assert IsPair(args, 0) && IsPair(args, 1);
    assert IsPair(args, 2) <==> config.mlrTimeout < 0x8000_0000;
    if ArePairs(args) {
      var after := config.(server16 := before.server16);
      forall key ensures Field(after, key) == LastValue(args, key, 3, Field(before, key)) {
        var start := Field(before, key);
        assert LastValue(args, key, 1, start) == if key == SeqNo then config.sequenceNumber else start;
      }
    }
  }

  /**
   * `bbr config` without arguments. Giving the printed keys and values back sets the same configuration,
   * exactly if the timeout is below 2^31; a larger one is printed as a negative number, which is no argument.
   */
  method OutputConfig(config: Config) returns (lines: seq<string>)
    ensures |lines| == 3
    ensures var args := PairOf(lines[0]) + PairOf(lines[1]) + PairOf(lines[2]);
            && (ArePairs(args) <==> config.mlrTimeout < 0x8000_0000)
            && (ArePairs(args) ==> forall before: Config :: Applied(args, before, config.(server16 := before.server16)))
  {
    var seqno, delay := Text(config.sequenceNumber, Decimal), Text(config.reregistrationDelay, Decimal);
    var timeout := SignedText(config.mlrTimeout);
    lines := ["seqno:" + "    " + seqno, "delay:" + "    " + delay + " secs", "timeout:" + "  " + timeout + " secs"];
    ThreePairs(config);
    hide ArePairs, Applied, PairOf, Text, SignedText;
    assert PairOf(lines[0]) + PairOf(lines[1]) + PairOf(lines[2]) == PrintedPairs(config);
    forall before: Config ensures ArePairs(PrintedPairs(config)) ==>
        Applied(PrintedPairs(config), before, config.(server16 := before.server16))
    {
      PairsReadBack(config, before);
    }
    PairsReadBack(config, config);
  }

  lemma ThreePairs(config: Config)
    ensures PairOf("seqno:" + "    " + Text(config.sequenceNumber, Decimal)) ==
            ["seqno", Text(config.sequenceNumber, Decimal)]
    ensures PairOf("delay:" + "    " + Text(config.reregistrationDelay, Decimal) + " secs") ==
            ["delay", Text(config.reregistrationDelay, Decimal)]
    ensures PairOf("timeout:" + "  " + SignedText(config.mlrTimeout) + " secs") ==
            ["timeout", SignedText(config.mlrTimeout)]
  {
    var seqno, delay := Text(config.sequenceNumber, Decimal), Text(config.reregistrationDelay, Decimal);
    TextIsPlain(config.sequenceNumber);
    TextIsPlain(config.reregistrationDelay);
    SignedTextIs(config.mlrTimeout);
    KeysArePlain();
    hide Text, SignedText, PairOf, IsPlainWord, IsGap;
    assert "seqno" + ":" == "seqno:" && "delay" + ":" == "delay:" && "timeout" + ":" == "timeout:";
    PairOfLine("seqno", "    ", seqno, "");
    assert "seqno:" + "    " + seqno + "" == "seqno:" + "    " + seqno;
    PairOfLine("delay", "    ", delay, " secs");
    PairOfLine("timeout", "  ", SignedText(config.mlrTimeout), " secs");
  }
}
