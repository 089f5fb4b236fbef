/**
 * The handlers themselves. Each makes exactly the stack call that its arguments denote, and returns the
 * pending result exactly when the stack has accepted a call that it will report on.
 */
module HandlerMethods {
  import opened Base
  import opened Numbers
  import opened Ip6Text
  import opened Handlers
  import MlrArguments

  // ---------- Pending results ----------

  lemma ArgumentErrors(args: seq<string>, k: nat, max: nat)
    ensures NumberError(args, k, max) == NoError <==> (k < |args| ==> ParseUint(args[k], max).Ok?)
    ensures NumberError(args, k, max) != Pending && AddressError(args, k) != Pending && ChannelError(args, k) != Pending
    ensures AddressError(args, k) == NoError <==> (k < |args| ==> AddressArgument(args[k]).Ok?)
    ensures ChannelError(args, k) == NoError <==>
            (k < |args| ==> ParseUint(args[k], UINT8_MAX).Ok? && ParseUint(args[k], UINT8_MAX).value < CHANNEL_BITS)
  {
  }

  function NumberAt(args: seq<string>, k: nat, max: nat): nat
    requires k < |args| ==> ParseUint(args[k], max).Ok?
  {
    if k < |args| then ParseUint(args[k], max).value else 0
  }

  function OptionalNumber(args: seq<string>, k: nat, max: nat): Option<nat>
    requires k < |args| ==> ParseUint(args[k], max).Ok?
  {
    if k < |args| then Some(ParseUint(args[k], max).value) else None
  }

  /** A scan is pending exactly when the arguments denote one and the stack accepts it. */
  lemma ScanPendingIff(args: seq<string>, stackError: Error)
    requires stackError != Pending
    ensures ScanError(args, stackError) == Pending <==>
            (exists c: Call :: c.HasCallback() && ScanDenotes(args, c)) && stackError == NoError
    ensures (exists c: Call :: c.HasCallback() && ScanDenotes(args, c)) && stackError != NoError ==>
        ScanError(args, stackError) == stackError
  {
    var energy := args != [] && args[0] == "energy";
    ArgumentErrors(args, 1, UINT16_MAX);
    ArgumentErrors(args, 0, UINT8_MAX);
    ArgumentErrors(args, 2, UINT8_MAX);
    if ScanError(args, stackError) == Pending {
      var c := if energy then EnergyScan(OptionalNumber(args, 2, UINT8_MAX), NumberAt(args, 1, UINT16_MAX))
               else ActiveScan(OptionalNumber(args, 0, UINT8_MAX));
      assert ScanDenotes(args, c);
    }
  }

  lemma DiscoverPendingIff(args: seq<string>, stackError: Error)
    requires stackError != Pending
    ensures DiscoverError(args, stackError) == Pending <==>
            (exists c: Call :: c.HasCallback() && DiscoverDenotes(args, c)) && stackError == NoError
    ensures (exists c: Call :: c.HasCallback() && DiscoverDenotes(args, c)) && stackError != NoError ==>
        DiscoverError(args, stackError) == stackError
  {
    ArgumentErrors(args, 0, UINT8_MAX);
    if DiscoverError(args, stackError) == Pending {
      assert DiscoverDenotes(args, Discover(OptionalNumber(args, 0, UINT8_MAX)));
    }
  }

  /** The server arguments have no error exactly when they denote a configuration. */
  lemma ConfigErrorIff(args: seq<string>, start: nat)
    ensures ConfigError(args, start) != Pending
    ensures ConfigError(args, start) == NoError <==> exists config :: ConfigDenotes(args, start, config)
  {
    ArgumentErrors(args, start, 0);
    ArgumentErrors(args, start + 1, UINT16_MAX);
    ArgumentErrors(args, start + 2, UINT32_MAX);
    ArgumentErrors(args, start + 3, UINT8_MAX);
    ArgumentErrors(args, start + 4, UINT32_MAX);
    hide NumberError, AddressError, ParseUint, AddressArgument;
    if ConfigError(args, start) == NoError {
      var config := ConfigOf(args, start);
      assert ConfigDenotes(args, start, config);
    }
  }

  function ConfigOf(args: seq<string>, start: nat): Option<DnsConfig>
    requires start < |args| ==> AddressArgument(args[start]).Ok?
    requires start + 1 < |args| ==> ParseUint(args[start + 1], UINT16_MAX).Ok?
    requires start + 2 < |args| ==> ParseUint(args[start + 2], UINT32_MAX).Ok?
    requires start + 3 < |args| ==> ParseUint(args[start + 3], UINT8_MAX).Ok?
    requires start + 4 < |args| ==> ParseUint(args[start + 4], UINT32_MAX).Ok?
  {
    if |args| <= start then None
    else
      var recursion := if start + 4 < |args| then Some(NumberAt(args, start + 4, UINT32_MAX) != 0) else None;
      Some(DnsConfig(AddressArgument(args[start]).value, NumberAt(args, start + 1, UINT16_MAX),
                     NumberAt(args, start + 2, UINT32_MAX), NumberAt(args, start + 3, UINT8_MAX), recursion))
  }

  /** The number of words before the server arguments of a query, if the first word starts one. */
  function QueryStart(word: string, discovery: bool): Option<nat> {
    if word == "config" then None
    else if word == "resolve" || (discovery && word == "browse") then Some(2)
    else if discovery && word == "service" then Some(3)
    else None
  }

  lemma DnsCallHasConfig(args: seq<string>, discovery: bool, c: Call)
    requires c.HasCallback() && DnsDenotes(args, discovery, c)
    ensures var start := QueryStart(args[0], discovery);
            start.Some? && exists config :: ConfigDenotes(args, start.value, config)
  {
    hide ConfigDenotes;
    assert |"config"| == 6 && |"browse"| == 6 && |"resolve"| == 7 && |"service"| == 7;
    assert "config"[0] != "browse"[0];
  }

  lemma DnsConfigHasCall(args: seq<string>, discovery: bool, start: nat, config: Option<DnsConfig>) returns (c: Call)
    requires args != [] && QueryStart(args[0], discovery) == Some(start) && ConfigDenotes(args, start, config)
    ensures c.HasCallback() && DnsDenotes(args, discovery, c)
  {
    hide ConfigDenotes;
    if args[0] == "resolve" {
      c := ResolveAddress(Argument(args, 1), config);
    } else if args[0] == "browse" {
      c := Browse(Argument(args, 1), config);
    } else {
      c := ResolveService(Argument(args, 1), Argument(args, 2), config);
    }
  }

  lemma DnsErrorIs(args: seq<string>, discovery: bool, stackError: Error)
    requires args != []
    ensures QueryStart(args[0], discovery).Some? ==>
        DnsError(args, discovery, stackError) ==
        Then(ConfigError(args, QueryStart(args[0], discovery).value), Deferred(stackError))
    ensures QueryStart(args[0], discovery).None? ==> DnsError(args, discovery, stackError) != Pending
  {
    ConfigErrorIff(args, 1);
    hide ConfigError, ConfigDenotes;
  }

  /** Only `resolve`, `browse` and `service` are ever pending; `config` calls the stack and is done. */
  lemma DnsPendingIff(args: seq<string>, discovery: bool, stackError: Error)
    requires stackError != Pending
    ensures DnsError(args, discovery, stackError) == Pending <==>
            (exists c: Call :: c.HasCallback() && DnsDenotes(args, discovery, c)) && stackError == NoError
    ensures (exists c: Call :: c.HasCallback() && DnsDenotes(args, discovery, c)) && stackError != NoError ==>
        DnsError(args, discovery, stackError) == stackError
  {
    if args != [] {
      DnsErrorIs(args, discovery, stackError);
      var start := QueryStart(args[0], discovery);
      hide QueryStart, ConfigError, ConfigDenotes, DnsError, DnsDenotes;
      forall c: Call | c.HasCallback() && DnsDenotes(args, discovery, c)
        ensures start.Some? && exists config :: ConfigDenotes(args, start.value, config)
      {
        DnsCallHasConfig(args, discovery, c);
      }
      if start.Some? {
        ConfigErrorIff(args, start.value);
        if config :| ConfigDenotes(args, start.value, config) {
          var c := DnsConfigHasCall(args, discovery, start.value, config);
        }
      }
    }
  }

  /** A query that finds another one in progress is never pending. */
  lemma SntpPendingIff(args: seq<string>, busy: bool, stackError: Error)
    requires stackError != Pending
    ensures SntpError(args, busy, stackError) == Pending <==>
            (exists c: Call :: c.HasCallback() && SntpDenotes(args, busy, c)) && stackError == NoError
    ensures (exists c: Call :: c.HasCallback() && SntpDenotes(args, busy, c)) && stackError != NoError ==>
        SntpError(args, busy, stackError) == stackError
  {
    ArgumentErrors(args, 1, 0);
    ArgumentErrors(args, 2, UINT16_MAX);
    if SntpError(args, busy, stackError) == Pending {
      var server := if |args| > 1 then Some(AddressArgument(args[1]).value) else None;
      assert SntpDenotes(args, busy, SntpQuery(server, OptionalNumber(args, 2, UINT16_MAX)));
    }
  }

  lemma MlrPendingIff(args: seq<string>, stackError: Error)
    requires stackError != Pending
    ensures MlrError(args, stackError) == Pending <==>
            (exists c: Call :: c.HasCallback() && MlrDenotes(args, c)) && stackError == NoError
    ensures (exists c: Call :: c.HasCallback() && MlrDenotes(args, c)) && stackError != NoError ==>
        MlrError(args, stackError) == stackError
  {
    if MlrError(args, stackError) == Pending {
      var r :| MlrArguments.Denotes(args[1..], r);
      assert MlrDenotes(args, RegisterListeners(r));
    }
  }

  lemma {:induction false} TypesErrorIff(texts: seq<string>, k: nat)
    ensures TypesError(texts, k) != Pending
    ensures TypesError(texts, k) == NoError <==>
            forall j :: k <= j < |texts| && j < MAX_DIAG_TYPES ==> ParseUint(texts[j], UINT8_MAX).Ok?
    decreases MAX_DIAG_TYPES - k
  {
    if k < |texts| && k < MAX_DIAG_TYPES {
      ArgumentErrors(texts, k, UINT8_MAX);
      TypesErrorIff(texts, k + 1);
    }
  }

  lemma TypesDenoted(texts: seq<string>) returns (types: seq<nat>)
    requires TypesError(texts, 0) == NoError
    ensures TypesDenote(texts, types)
  {
    TypesErrorIff(texts, 0);
    var n := if |texts| < MAX_DIAG_TYPES then |texts| else MAX_DIAG_TYPES;
    types := seq(n, k requires 0 <= k < n => ParseUint(texts[k], UINT8_MAX).value);
  }

  /** Of the two requests only `get` is ever pending. */
  lemma DiagnosticPendingIff(args: seq<string>, stackError: Error)
    requires stackError != Pending
    ensures DiagnosticError(args, stackError) == Pending <==>
            (exists c: Call :: c.HasCallback() && DiagnosticDenotes(args, c)) && stackError == NoError
    ensures (exists c: Call :: c.HasCallback() && DiagnosticDenotes(args, c)) && stackError != NoError ==>
        DiagnosticError(args, stackError) == stackError
  {
    if |args| > 2 {
      ArgumentErrors(args, 1, 0);
      TypesErrorIff(args[2..], 0);
      hide AddressError, TypesError;
      if DiagnosticError(args, stackError) == Pending {
        var types := TypesDenoted(args[2..]);
        assert DiagnosticDenotes(args, DiagnosticGet(AddressArgument(args[1]).value, types));
      } else if c: Call :| c.HasCallback() && DiagnosticDenotes(args, c) {
        var texts := args[2..];
        assert forall j :: 0 <= j < |texts| && j < MAX_DIAG_TYPES ==> ParseUint(texts[j], UINT8_MAX) == Ok(c.types[j]);
      }
    }
  }

  // ---------- Results without a callback ----------

  /** `dns` is done at once when it lists the configuration or sets it. */
  lemma DnsDoneIff(args: seq<string>, discovery: bool, stackError: Error)
    ensures DnsError(args, discovery, stackError) == NoError <==>
            args == ["config"] || exists c: Call :: !c.HasCallback() && DnsDenotes(args, discovery, c)
  {
    if args != [] && args[0] == "config" {
      assert |"config"| == 6 && |"resolve"| == 7 && |"service"| == 7 && "config"[0] != "browse"[0];
      ConfigErrorIff(args, 1);
      if |args| == 1 {
        NothingToSet(args);
      } else {
        hide ConfigError, ConfigDenotes;
        if config :| ConfigDenotes(args, 1, config) {
          SomethingToSet(args, config);
          assert DnsDenotes(args, discovery, SetDnsConfig(config.value));
        }
      }
    } else {
      hide ConfigError, ConfigDenotes;
    }
  }

  /** `networkdiagnostic reset` is done as soon as it is sent. */
  lemma DiagnosticDoneIff(args: seq<string>, stackError: Error)
    ensures DiagnosticError(args, stackError) == NoError <==>
            exists c: Call :: !c.HasCallback() && DiagnosticDenotes(args, c)
  {
    assert |"get"| == 3 && |"reset"| == 5;
    if |args| > 2 {
      ArgumentErrors(args, 1, 0);
      TypesErrorIff(args[2..], 0);
      hide AddressError, TypesError;
      if c: Call :| !c.HasCallback() && DiagnosticDenotes(args, c) {
        var texts := args[2..];
        assert forall j :: 0 <= j < |texts| && j < MAX_DIAG_TYPES ==> ParseUint(texts[j], UINT8_MAX) == Ok(c.types[j]);
      }
      if DiagnosticError(args, stackError) == NoError {
        var types := TypesDenoted(args[2..]);
        assert DiagnosticDenotes(args, DiagnosticReset(AddressArgument(args[1]).value, types));
      }
    }
  }

  // ---------- At most one call ----------

  lemma ScanUnique(args: seq<string>, c: Call, d: Call)
    requires ScanDenotes(args, c) && ScanDenotes(args, d)
    ensures c == d
  {
    hide ParseUint;
  }

  lemma DiscoverUnique(args: seq<string>, c: Call, d: Call)
    requires DiscoverDenotes(args, c) && DiscoverDenotes(args, d)
    ensures c == d
  {
    hide ParseUint;
  }

  lemma ConfigUnique(args: seq<string>, start: nat, c: Option<DnsConfig>, d: Option<DnsConfig>)
    requires ConfigDenotes(args, start, c) && ConfigDenotes(args, start, d)
    ensures c == d
  {
    hide ParseUint, AddressArgument;
  }

  lemma DnsUnique(args: seq<string>, discovery: bool, c: Call, d: Call)
    requires DnsDenotes(args, discovery, c) && DnsDenotes(args, discovery, d)
    ensures c == d
  {
    hide ConfigDenotes;
    assert |"config"| == 6 && |"browse"| == 6 && |"resolve"| == 7 && |"service"| == 7;
    assert "config"[0] != "browse"[0] && "resolve"[0] != "service"[0];
    match c
    case SetDnsConfig(defaults) => ConfigUnique(args, 1, Some(defaults), Some(d.defaults));
    case ResolveAddress(_, config) => ConfigUnique(args, 2, config, d.config);
    case Browse(_, config) => ConfigUnique(args, 2, config, d.config);
    case ResolveService(_, _, config) => ConfigUnique(args, 3, config, d.config);
  }

  lemma SntpUnique(args: seq<string>, busy: bool, c: Call, d: Call)
    requires SntpDenotes(args, busy, c) && SntpDenotes(args, busy, d)
    ensures c == d
  {
    hide ParseUint, AddressArgument;
  }

  lemma MlrUnique(args: seq<string>, c: Call, d: Call)
    requires MlrDenotes(args, c) && MlrDenotes(args, d)
    ensures c == d
  {
    MlrArguments.DenotationUnique(args[1..], c.registration, d.registration);
  }

  lemma DiagnosticUnique(args: seq<string>, c: Call, d: Call)
    requires DiagnosticDenotes(args, c) && DiagnosticDenotes(args, d)
    ensures c == d
  {
    hide ParseUint, AddressArgument;
    assert |"get"| == 3 && |"reset"| == 5;
    assert forall k :: 0 <= k < |c.types| ==> c.types[k] == d.types[k];
  }

  // ---------- The handlers ----------

  method ProcessScan(args: seq<string>, stackError: Error) returns (error: Error, call: Option<Call>)
    ensures forall c :: ScanDenotes(args, c) <==> call == Some(c)
    ensures error == ScanError(args, stackError)
  {
    hide ParseUint;
    var channel: Option<nat>, duration: nat := None, 0;
    var energyScan, index: nat := false, 0;
    if |args| > 0 {
      if args[index] == "energy" {
        energyScan, index := true, index + 1;
        if |args| > 1 {
          var number := ParseUint(args[index], UINT16_MAX);
          index := index + 1;
          if number.Err? {
            return number.error, None;
          }
          duration := number.value;
        }
      }
      if index < |args| {
        var number := ParseUint(args[index], UINT8_MAX);
        if number.Err? {
          return number.error, None;
        }
        if number.value >= CHANNEL_BITS {
          return InvalidArgs, None;
        }
        channel := Some(number.value);
      }
    }
    call := Some(if energyScan then EnergyScan(channel, duration) else ActiveScan(channel));
    error := Deferred(stackError);
  }

  method ProcessDiscover(args: seq<string>, stackError: Error) returns (error: Error, call: Option<Call>)
    ensures forall c :: DiscoverDenotes(args, c) <==> call == Some(c)
    ensures error == DiscoverError(args, stackError)
  {
    hide ParseUint;
    var channel: Option<nat> := None;
    if |args| > 0 {
      var number := ParseUint(args[0], UINT8_MAX);
      if number.Err? {
        return number.error, None;
      }
      if number.value >= CHANNEL_BITS {
        return InvalidArgs, None;
      }
      channel := Some(number.value);
    }
    call := Some(Discover(channel));
    error := Deferred(stackError);
  }

  /** Reads the server arguments until one is missing or malformed. */
  method GetDnsConfig(args: seq<string>, start: nat) returns (error: Error, config: Option<DnsConfig>)
    ensures error == ConfigError(args, start)
    ensures forall c :: ConfigDenotes(args, start, c) <==> error == NoError && c == config
  {
    hide ParseUint, AddressArgument;
    config := None;
    if |args| <= start {
      return NoError, None;
    }
    var address := AddressArgument(args[start]);
    if address.Err? {
      return address.error, None;
    }
    var c := DnsConfig(address.value, 0, 0, 0, None);
    if |args| <= start + 1 {
      return NoError, Some(c);
    }
    var number := ParseUint(args[start + 1], UINT16_MAX);
    if number.Err? {
      return number.error, None;
    }
    c := c.(port := number.value);
    if |args| <= start + 2 {
      return NoError, Some(c);
    }
    number := ParseUint(args[start + 2], UINT32_MAX);
    if number.Err? {
      return number.error, None;
    }
    c := c.(timeout := number.value);
    if |args| <= start + 3 {
      return NoError, Some(c);
    }
    number := ParseUint(args[start + 3], UINT8_MAX);
    if number.Err? {
      return number.error, None;
    }
    c := c.(attempts := number.value);
    if |args| <= start + 4 {
      return NoError, Some(c);
    }
    number := ParseUint(args[start + 4], UINT32_MAX);
    if number.Err? {
      return number.error, None;
    }
    return NoError, Some(c.(recursion := Some(number.value != 0)));
  }

  method ProcessDns(args: seq<string>, discovery: bool, stackError: Error) returns (error: Error, call: Option<Call>)
    ensures forall c :: DnsDenotes(args, discovery, c) <==> call == Some(c)
    ensures error == DnsError(args, discovery, stackError)
  {
    hide ConfigDenotes, ConfigError;
    var config;
    if |args| == 0 {
      return InvalidArgs, None;
    }
    if args[0] == "config" {
      if |args| == 1 {
        ConfigErrorIff(args, 1);
        NothingToSet(args);
        return NoError, None;
      }
      error, config := GetDnsConfig(args, 1);
      if error != NoError {
        return error, None;
      }
      assert ConfigDenotes(args, 1, config);
      SomethingToSet(args, config);
      return NoError, Some(SetDnsConfig(config.value));
    } else if args[0] == "resolve" {
      error, config := GetDnsConfig(args, 2);
      if error != NoError {
        return error, None;
      }
      return Deferred(stackError), Some(ResolveAddress(Argument(args, 1), config));
    } else if discovery && args[0] == "browse" {
      error, config := GetDnsConfig(args, 2);
      if error != NoError {
        return error, None;
      }
      return Deferred(stackError), Some(Browse(Argument(args, 1), config));
    } else if discovery && args[0] == "service" {
      error, config := GetDnsConfig(args, 3);
      if error != NoError {
        return error, None;
      }
      return Deferred(stackError), Some(ResolveService(Argument(args, 1), Argument(args, 2), config));
    }
    return InvalidCommand, None;
  }

  lemma NothingToSet(args: seq<string>)
    requires |args| == 1
    ensures ConfigError(args, 1) == NoError
  {
  }

  lemma SomethingToSet(args: seq<string>, config: Option<DnsConfig>)
    requires |args| > 1 && ConfigDenotes(args, 1, config)
    ensures config.Some?
  {
  }

  method ProcessSntp(args: seq<string>, busy: bool, stackError: Error) returns (error: Error, call: Option<Call>)
    ensures forall c :: SntpDenotes(args, busy, c) <==> call == Some(c)
    ensures error == SntpError(args, busy, stackError)
  {
    hide ParseUint, AddressArgument;
    if |args| == 0 {
      return InvalidArgs, None;
    }
    if args[0] != "query" {
      return InvalidCommand, None;
    }
    if busy {
      return Busy, None;
    }
    var server: Option<Address>, port: Option<nat> := None, None;
    if |args| > 1 {
      var address := AddressArgument(args[1]);
      if address.Err? {
        return address.error, None;
      }
      server := Some(address.value);
    }
    if |args| > 2 {
      var number := ParseUint(args[2], UINT16_MAX);
      if number.Err? {
        return number.error, None;
      }
      port := Some(number.value);
    }
    call := Some(SntpQuery(server, port));
    error := Deferred(stackError);
  }

  method ProcessMlr(args: seq<string>, stackError: Error) returns (error: Error, call: Option<Call>)
    ensures forall c :: MlrDenotes(args, c) <==> call == Some(c)
    ensures error == MlrError(args, stackError)
  {
    hide MlrArguments.Denotes;
    if |args| == 0 || args[0] != "reg" {
      return InvalidCommand, None;
    }
    var registration;
    error, registration := MlrArguments.ProcessMlrReg(args[1..], stackError);
    if registration.Some? {
      assert MlrArguments.Denotes(args[1..], registration.value);
      call := Some(RegisterListeners(registration.value));
    } else {
      call := None;
    }
  }

  method ProcessNetworkDiagnostic(args: seq<string>, stackError: Error) returns (error: Error, call: Option<Call>)
    ensures forall c :: DiagnosticDenotes(args, c) <==> call == Some(c)
    ensures error == DiagnosticError(args, stackError)
  {
    hide ParseUint, AddressArgument;
    if |args| <= 2 {
      return InvalidArgs, None;
    }
    var address := AddressArgument(args[1]);
    if address.Err? {
      return address.error, None;
    }
    var types: seq<nat> := [];
    ghost var texts := args[2..];
    var argsIndex: nat := 2;
    while argsIndex < |args| && |types| < MAX_DIAG_TYPES
      invariant argsIndex == 2 + |types| <= |args| && |types| <= MAX_DIAG_TYPES
      invariant forall k :: 0 <= k < |types| ==> ParseUint(texts[k], UINT8_MAX) == Ok(types[k])
      invariant TypesError(texts, 0) == TypesError(texts, |types|)
    {
      var number := ParseUint(args[argsIndex], UINT8_MAX);
      assert texts[|types|] == args[argsIndex];
      if number.Err? {
        return number.error, None;
      }
      argsIndex := argsIndex + 1;
      types := types + [number.value];
    }
    assert TypesDenote(texts, types);
    forall other | TypesDenote(texts, other) ensures other == types {
      assert forall k :: 0 <= k < |types| ==> other[k] == types[k];
    }
    if args[0] == "get" {
      return Deferred(stackError), Some(DiagnosticGet(address.value, types));
    } else if args[0] == "reset" {
      return NoError, Some(DiagnosticReset(address.value, types));
    }
    return InvalidCommand, None;
  }
}
