/** The other way round: every stack call of the handlers can be typed, and how. */
module TypedCalls {
  import opened Base
  import opened Numbers
  import opened Ip6Text
  import opened Ip6Laws
  import opened CommandLine
  import opened Handlers
  import opened Interpreter
  import opened InterpreterRuns
  import MlrArguments

  // ---------- Words ----------

  function Typed(n: nat): string {
    Text(n, Decimal)
  }

  function TypedAll(ns: seq<nat>): (texts: seq<string>)
    ensures |texts| == |ns|
  {
    seq(|ns|, k requires 0 <= k < |ns| => Typed(ns[k]))
  }

  function Addresses(addresses: seq<Address>): (texts: seq<string>)
    ensures |texts| == |addresses|
  {
    seq(|addresses|, k requires 0 <= k < |addresses| => AddressText(addresses[k]))
  }

  function Present(word: Option<string>): seq<string> {
    if word.Some? then [word.value] else []
  }

  function PresentAddress(a: Option<Address>): seq<string> {
    if a.Some? then [AddressText(a.value)] else []
  }

  function PresentNumber(n: Option<nat>): seq<string> {
    if n.Some? then [Typed(n.value)] else []
  }

  /** The server, its port, the timeout, the number of attempts and whether recursion is desired. */
  function ConfigWords(config: DnsConfig): seq<string> {
    [AddressText(config.address), Typed(config.port), Typed(config.timeout), Typed(config.attempts)] +
    match config.recursion
    case None => []
    case Some(desired) => [Typed(if desired then 1 else 0)]
  }

  function PresentConfig(config: Option<DnsConfig>): seq<string> {
    if config.Some? then ConfigWords(config.value) else []
  }

  /** The words to type for a call, from the command on. */
  function WordsOf(call: Call): seq<string> {
    match call
    case ActiveScan(channel) => ["scan"] + PresentNumber(channel)
    case EnergyScan(channel, duration) => ["scan", "energy", Typed(duration)] + PresentNumber(channel)
    case Discover(channel) => ["discover"] + PresentNumber(channel)
    case SetDnsConfig(defaults) => ["dns", "config"] + ConfigWords(defaults)
    case ResolveAddress(host, config) => ["dns", "resolve"] + Present(host) + PresentConfig(config)
    case Browse(service, config) => ["dns", "browse"] + Present(service) + PresentConfig(config)
    case ResolveService(instance, service, config) =>
      ["dns", "service"] + Present(instance) + Present(service) + PresentConfig(config)
    case SntpQuery(server, port) => ["sntp", "query"] + PresentAddress(server) + PresentNumber(port)
    case RegisterListeners(r) => ["mlr", "reg"] + Addresses(r.addresses) + PresentNumber(r.timeout)
    case DiagnosticGet(peer, types) => ["networkdiagnostic", "get", AddressText(peer)] + TypedAll(types)
    case DiagnosticReset(peer, types) => ["networkdiagnostic", "reset", AddressText(peer)] + TypedAll(types)
  }

  // ---------- Which calls ----------

  predicate IsChannel(channel: Option<nat>) {
    channel.Some? ==> channel.value < CHANNEL_BITS
  }

  predicate IsConfig(config: DnsConfig) {
    config.port <= UINT16_MAX && config.timeout <= UINT32_MAX && config.attempts <= UINT8_MAX
  }

  predicate IsQueryConfig(config: Option<DnsConfig>) {
    config.Some? ==> IsConfig(config.value)
  }

  /** One to nineteen types of eight bits. */
  predicate AreTypes(types: seq<nat>) {
    1 <= |types| <= MAX_DIAG_TYPES && forall k :: 0 <= k < |types| ==> types[k] <= UINT8_MAX
  }

  /** Numbers in their range, and nothing present behind what is absent. */
  predicate CanBeTyped(call: Call) {
    match call
    case ActiveScan(channel) => IsChannel(channel)
    case EnergyScan(channel, duration) => IsChannel(channel) && duration <= UINT16_MAX
    case Discover(channel) => IsChannel(channel)
    case SetDnsConfig(defaults) => IsConfig(defaults)
    case ResolveAddress(host, config) => IsQueryConfig(config) && (config.Some? ==> host.Some?)
    case Browse(service, config) => IsQueryConfig(config) && (config.Some? ==> service.Some?)
    case ResolveService(instance, service, config) =>
      IsQueryConfig(config) && (config.Some? ==> service.Some?) && (service.Some? ==> instance.Some?)
    case SntpQuery(server, port) => port.Some? ==> server.Some? && port.value <= UINT16_MAX
    case RegisterListeners(r) =>
      1 <= |r.addresses| <= MlrArguments.MAX_ADDRESSES && (r.timeout.Some? ==> r.timeout.value <= UINT32_MAX)
    case DiagnosticGet(_, types) => AreTypes(types)
    case DiagnosticReset(_, types) => AreTypes(types)
  }

  // ---------- What is typed is denoted ----------

  lemma NumberTyped(n: nat, max: nat)
    requires n <= max
    ensures ParseUint(Typed(n), max) == Ok(n)
  {
    NumberOfText(n);
  }

  lemma AddressTyped(a: Address)
    ensures ParseAddress(AddressText(a)) == Some(a) && AddressArgument(AddressText(a)) == Ok(a)
  {
    ParsePrinted(a);
  }

  lemma ConfigTyped(before: seq<string>, config: DnsConfig)
    requires IsConfig(config)
    ensures ConfigDenotes(before + ConfigWords(config), |before|, Some(config))
  {
    var args, n := before + ConfigWords(config), |before|;
    AddressTyped(config.address);
    NumberTyped(config.port, UINT16_MAX);
    NumberTyped(config.timeout, UINT32_MAX);
    NumberTyped(config.attempts, UINT8_MAX);
    NumberTyped(0, UINT32_MAX);
    NumberTyped(1, UINT32_MAX);
    hide Typed, AddressText, ParseUint, AddressArgument;
    assert args[n] == AddressText(config.address) && args[n + 1] == Typed(config.port);
    assert args[n + 2] == Typed(config.timeout) && args[n + 3] == Typed(config.attempts);
    assert config.recursion.Some? ==> args[n + 4] == Typed(if config.recursion.value then 1 else 0);
  }

  lemma QueryConfigTyped(before: seq<string>, config: Option<DnsConfig>)
    requires IsQueryConfig(config)
    ensures ConfigDenotes(before + PresentConfig(config), |before|, config)
  {
    if config.Some? {
      ConfigTyped(before, config.value);
    } else {
      assert before + [] == before;
    }
  }

  lemma ChannelTyped(before: seq<string>, channel: Option<nat>)
    requires IsChannel(channel)
    ensures ChannelDenotes(before + PresentNumber(channel), |before|, channel)
  {
    if channel.Some? {
      NumberTyped(channel.value, UINT8_MAX);
    }
  }

  lemma ScanTyped(call: Call)
    requires CanBeTyped(call) && (call.ActiveScan? || call.EnergyScan? || call.Discover?)
    ensures var words := WordsOf(call); |words| > 0 && Denotes(words[0], words[1..], false, true, call)
  {
    hide Typed, ParseUint;
    var words := WordsOf(call);
    match call
    case ActiveScan(channel) =>
      ChannelTyped([], channel);
      assert words[1..] == [] + PresentNumber(channel);
      assert |"energy"| == 6;
      if channel.Some? {
        NotEnergy(channel.value);
      }
    case EnergyScan(channel, duration) =>
      NumberTyped(duration, UINT16_MAX);
      ChannelTyped(["energy", Typed(duration)], channel);
      assert words[1..] == ["energy", Typed(duration)] + PresentNumber(channel);
    case Discover(channel) =>
      ChannelTyped([], channel);
      assert words[1..] == [] + PresentNumber(channel);
  }

  lemma NotEnergy(n: nat)
    ensures Typed(n) != "energy"
  {
    var text := Text(n, Decimal);
    if |text| > 1 {
      TextDigits(n, Decimal, 1);
      assert "energy"[1] == 'n';
    }
  }

  lemma DnsTyped(call: Call)
    requires CanBeTyped(call)
    requires call.SetDnsConfig? || call.ResolveAddress? || call.Browse? || call.ResolveService?
    ensures var words := WordsOf(call); |words| > 0 && Denotes(words[0], words[1..], false, true, call)
  {
    hide ConfigDenotes, ConfigWords;
    var words := WordsOf(call);
    match call
    case SetDnsConfig(defaults) =>
      ConfigTyped(["config"], defaults);
      assert words[1..] == ["config"] + ConfigWords(defaults);
      SomeWords(defaults);
    case ResolveAddress(host, config) => QueryTyped("resolve", Present(host), config, words);
    case Browse(service, config) => QueryTyped("browse", Present(service), config, words);
    case ResolveService(instance, service, config) =>
      assert words == ["dns", "service"] + (Present(instance) + Present(service)) + PresentConfig(config);
      QueryTyped("service", Present(instance) + Present(service), config, words);
  }

  lemma SomeWords(config: DnsConfig)
    ensures ConfigWords(config) != []
  {
  }

  lemma QueryTyped(word: string, names: seq<string>, config: Option<DnsConfig>, words: seq<string>)
    requires words == ["dns", word] + names + PresentConfig(config) && IsQueryConfig(config)
    ensures words[1..] == [word] + names + PresentConfig(config)
    ensures ConfigDenotes(words[1..], 1 + |names|, config)
    ensures config.None? ==> forall start: nat :: start > |names| ==> ConfigDenotes(words[1..], start, config)
  {
    QueryConfigTyped([word] + names, config);
    hide PresentConfig, IsQueryConfig, AddressArgument, NumberDenotes, RecursionDenotes;
    WithoutFirst("dns", word, names, PresentConfig(config));
    assert |[word] + names| == 1 + |names|;
    if config.None? {
      NoConfig(words[1..], |names|);
    }
  }

  lemma WithoutFirst(first: string, word: string, names: seq<string>, rest: seq<string>)
    ensures ([first, word] + names + rest)[1..] == [word] + names + rest
  {
  }

  lemma NoConfig(args: seq<string>, n: nat)
    requires ConfigDenotes(args, 1 + n, None)
    ensures forall start: nat :: start > n ==> ConfigDenotes(args, start, None)
  {
    hide NumberDenotes, RecursionDenotes, AddressArgument;
  }

  lemma SntpTyped(call: Call)
    requires CanBeTyped(call) && call.SntpQuery?
    ensures var words := WordsOf(call); |words| > 0 && Denotes(words[0], words[1..], false, true, call)
  {
    var args := ["query"] + PresentAddress(call.server) + PresentNumber(call.port);
    SntpDenoted(call, args);
    hide SntpDenotes, AddressText, PresentNumber;
    assert WordsOf(call) == ["sntp"] + args && WordsOf(call)[1..] == args;
  }

  lemma SntpDenoted(call: Call, args: seq<string>)
    requires CanBeTyped(call) && call.SntpQuery?
    requires args == ["query"] + PresentAddress(call.server) + PresentNumber(call.port)
    ensures SntpDenotes(args, false, call)
  {
    hide Typed, AddressText, ParseUint, AddressArgument;
    assert args[0] == "query";
    if call.server.Some? {
      AddressTyped(call.server.value);
      assert args[1] == AddressText(call.server.value);
    }
    if call.port.Some? {
      NumberTyped(call.port.value, UINT16_MAX);
      assert args[2] == Typed(call.port.value);
    }
  }

  lemma MlrTyped(call: Call)
    requires CanBeTyped(call) && call.RegisterListeners?
    ensures var words := WordsOf(call); |words| > 0 && Denotes(words[0], words[1..], false, true, call)
  {
    hide Typed, AddressText, ParseUint, ParseAddress;
    var words, r := WordsOf(call), call.registration;
    var args := Addresses(r.addresses) + PresentNumber(r.timeout);
    assert words[1..] == ["reg"] + args && words[1..][1..] == args;
    forall k | 0 <= k < |r.addresses| ensures ParseAddress(args[k]) == Some(r.addresses[k]) {
      AddressTyped(r.addresses[k]);
    }
    if r.timeout.Some? {
      NumberTyped(r.timeout.value, UINT32_MAX);
    }
  }

  lemma DiagnosticTyped(call: Call)
    requires CanBeTyped(call) && (call.DiagnosticGet? || call.DiagnosticReset?)
    ensures var words := WordsOf(call); |words| > 0 && Denotes(words[0], words[1..], false, true, call)
  {
    hide Typed, AddressText, ParseUint, AddressArgument;
    var words := WordsOf(call);
    var texts := TypedAll(call.types);
    AddressTyped(call.peer);
    assert words[1..][2..] == texts;
    forall k | 0 <= k < |texts| ensures ParseUint(texts[k], UINT8_MAX) == Ok(call.types[k]) {
      NumberTyped(call.types[k], UINT8_MAX);
    }
  }

  /** Every call with numbers in range can be made by typing these words; no argument order can be swapped. */
  lemma EveryCallCanBeTyped(call: Call)
    requires CanBeTyped(call)
    ensures var words := WordsOf(call); |words| > 0 && Denotes(words[0], words[1..], false, true, call)
  {
    hide CanBeTyped, WordsOf;
    match call {
      case ActiveScan(_) => ScanTyped(call);
      case EnergyScan(_, _) => ScanTyped(call);
      case Discover(_) => ScanTyped(call);
      case SntpQuery(_, _) => SntpTyped(call);
      case RegisterListeners(_) => MlrTyped(call);
      case DiagnosticGet(_, _) => DiagnosticTyped(call);
      case DiagnosticReset(_, _) => DiagnosticTyped(call);
      case _ => DnsTyped(call);
    }
  }

  /** What is left out is zero, or left to the stack. */
  lemma ShortForms(host: string, server: Address)
    ensures Denotes("scan", ["energy"], false, true, EnergyScan(None, 0))
    ensures Denotes("dns", ["config", AddressText(server)], false, true,
                    SetDnsConfig(DnsConfig(server, 0, 0, 0, None)))
    ensures Denotes("dns", ["resolve", host, AddressText(server)], false, true,
                    ResolveAddress(Some(host), Some(DnsConfig(server, 0, 0, 0, None))))
    ensures Denotes("dns", ["browse", host, AddressText(server)], false, true,
                    Browse(Some(host), Some(DnsConfig(server, 0, 0, 0, None))))
  {
    AddressTyped(server);
    hide AddressText, AddressArgument;
  }

  /** No other call is ever made. */
  lemma DenotedCanBeTyped(name: string, args: seq<string>, busy: bool, discovery: bool, call: Call)
    requires Denotes(name, args, busy, discovery, call)
    ensures CanBeTyped(call)
  {
    hide AddressArgument, Number;
  }

  /** Of every run: a line with these words makes the stack call, if the stack accepts it. */
  lemma TypedCallIsMade(table: seq<string>, states: seq<State>, events: seq<Event>, k: nat, text: string,
                        env: Environment, call: Call)
    requires IsRun(table, states, events) && k < |events| && events[k] == Line(text, env) && Reaches(table, text, env)
    requires CanBeTyped(call) && Arguments(text) == WordsOf(call) && call.HasCallback() && !call.DiagnosticGet?
    requires env.stackError == NoError && env.discovery && !states[k].sntpBusy
    ensures states[k + 1].outstanding == states[k].outstanding[states[k].lines := call]
    ensures states[k + 1].answers == states[k].answers
  {
    EveryCallCanBeTyped(call);
    hide CanBeTyped, WordsOf, Arguments, IsRun, Denotes;
    CallIsRecorded(table, states, events, k, text, env, call);
  }
}
