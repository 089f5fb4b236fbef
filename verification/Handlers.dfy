/**
 * The command handlers that call the stack and may leave their result to a callback. A grammar says
 * which stack call the arguments of a command denote, an error function says what the handler returns,
 * and `stackError` is what the stack call returns.
 */
module Handlers {
  import opened Base
  import opened Numbers
  import opened Ip6Text
  import MlrArguments

  // ---------- Stack calls ----------

  /** Absent fields are 0, and an absent recursion argument leaves the choice to the stack. */
  datatype DnsConfig = DnsConfig(address: Address, port: nat, timeout: nat, attempts: nat, recursion: Option<bool>)

  /** A channel stands for the mask with its bit, no channel for the empty mask; a missing name is a null pointer. */
  datatype Call =
    | ActiveScan(channel: Option<nat>)
    | EnergyScan(channel: Option<nat>, duration: nat)
    | Discover(channel: Option<nat>)
    | SetDnsConfig(defaults: DnsConfig)
    | ResolveAddress(host: Option<string>, config: Option<DnsConfig>)
    | Browse(service: Option<string>, config: Option<DnsConfig>)
    | ResolveService(instance: Option<string>, service: Option<string>, config: Option<DnsConfig>)
    | SntpQuery(server: Option<Address>, port: Option<nat>)
    | RegisterListeners(registration: MlrArguments.Registration)
    | DiagnosticGet(peer: Address, types: seq<nat>)
    | DiagnosticReset(peer: Address, types: seq<nat>)
  {
    /** The stack reports the end of the operation to a callback. */
    predicate HasCallback() {
      !SetDnsConfig? && !DiagnosticReset?
    }
  }

  /** The stack has taken over an operation and will report its end. */
  predicate Accepted(call: Option<Call>, stackError: Error) {
    call.Some? && call.value.HasCallback() && stackError == NoError
  }

  // ---------- Which call the arguments denote ----------

  const CHANNEL_BITS: nat := 32

  function Argument(args: seq<string>, k: nat): Option<string> {
    if k < |args| then Some(args[k]) else None
  }

  /** A channel must fit in a 32-bit channel mask. */
  predicate ChannelDenotes(args: seq<string>, k: nat, channel: Option<nat>) {
    if k < |args| then
      channel.Some? && channel.value < CHANNEL_BITS && ParseUint(args[k], UINT8_MAX) == Ok(channel.value)
    else
      channel.None?
  }

  predicate NumberDenotes(args: seq<string>, k: nat, max: nat, value: nat) {
    if k < |args| then ParseUint(args[k], max) == Ok(value) else value == 0
  }

  /** Extra arguments are ignored, here as in the source. */
  predicate ScanDenotes(args: seq<string>, call: Call) {
    if args != [] && args[0] == "energy" then
      call.EnergyScan? && NumberDenotes(args, 1, UINT16_MAX, call.duration) && ChannelDenotes(args, 2, call.channel)
    else
      call.ActiveScan? && ChannelDenotes(args, 0, call.channel)
  }

  predicate DiscoverDenotes(args: seq<string>, call: Call) {
    call.Discover? && ChannelDenotes(args, 0, call.channel)
  }

  /** The optional server arguments from index `start` on. */
  predicate ConfigDenotes(args: seq<string>, start: nat, config: Option<DnsConfig>) {
    if |args| <= start then config.None?
    else
      && config.Some?
      && AddressArgument(args[start]) == Ok(config.value.address)
      && NumberDenotes(args, start + 1, UINT16_MAX, config.value.port)
      && NumberDenotes(args, start + 2, UINT32_MAX, config.value.timeout)
      && NumberDenotes(args, start + 3, UINT8_MAX, config.value.attempts)
      && RecursionDenotes(args, start + 4, config.value.recursion)
  }

  predicate RecursionDenotes(args: seq<string>, k: nat, recursion: Option<bool>) {
    if k < |args| then
      var number := ParseUint(args[k], UINT32_MAX);
      number.Ok? && recursion == Some(number.value != 0)
    else
      recursion.None?
  }

  /** `discovery` says that the build knows `browse` and `service`. */
  predicate DnsDenotes(args: seq<string>, discovery: bool, call: Call) {
    && args != []
    && match call
       case SetDnsConfig(defaults) => args[0] == "config" && |args| > 1 && ConfigDenotes(args, 1, Some(defaults))
       case ResolveAddress(host, config) =>
         args[0] == "resolve" && host == Argument(args, 1) && ConfigDenotes(args, 2, config)
       case Browse(service, config) =>
         discovery && args[0] == "browse" && service == Argument(args, 1) && ConfigDenotes(args, 2, config)
       case ResolveService(instance, service, config) =>
         && discovery && args[0] == "service"
         && instance == Argument(args, 1) && service == Argument(args, 2) && ConfigDenotes(args, 3, config)
       case _ => false
  }

  /** One query at a time. */
  predicate SntpDenotes(args: seq<string>, busy: bool, call: Call) {
    && args != [] && args[0] == "query" && !busy && call.SntpQuery?
    && call.server.Some? == (|args| > 1) && call.port.Some? == (|args| > 2)
    && (|args| > 1 ==> AddressArgument(args[1]) == Ok(call.server.value))
    && (|args| > 2 ==> ParseUint(args[2], UINT16_MAX) == Ok(call.port.value))
  }

  ghost predicate MlrDenotes(args: seq<string>, call: Call) {
    && args != [] && args[0] == "reg"
    && call.RegisterListeners? && MlrArguments.Denotes(args[1..], call.registration)
  }

  const MAX_DIAG_TYPES: nat := 19

  /** No more than 19 types are read. */
  predicate TypesDenote(texts: seq<string>, types: seq<nat>) {
    && |types| == (if |texts| < MAX_DIAG_TYPES then |texts| else MAX_DIAG_TYPES)
    && forall k :: 0 <= k < |types| ==> ParseUint(texts[k], UINT8_MAX) == Ok(types[k])
  }

  predicate DiagnosticDenotes(args: seq<string>, call: Call) {
    && |args| > 2 && (call.DiagnosticGet? || call.DiagnosticReset?)
    && args[0] == (if call.DiagnosticGet? then "get" else "reset")
    && AddressArgument(args[1]) == Ok(call.peer) && TypesDenote(args[2..], call.types)
  }

  // ---------- What the handlers return ----------

  /** Where the stack accepts the request, the result is deferred. */
  function Deferred(stackError: Error): Error {
    if stackError == NoError then Pending else stackError
  }

  /** The error of an optional argument. */
  function NumberError(args: seq<string>, k: nat, max: nat): Error {
    if k < |args| && ParseUint(args[k], max).Err? then ParseUint(args[k], max).error else NoError
  }

  function AddressError(args: seq<string>, k: nat): Error {
    if k < |args| && AddressArgument(args[k]).Err? then AddressArgument(args[k]).error else NoError
  }

  function ChannelError(args: seq<string>, k: nat): Error {
    if k < |args| && ParseUint(args[k], UINT8_MAX).Ok? && ParseUint(args[k], UINT8_MAX).value >= CHANNEL_BITS then
      InvalidArgs
    else
      NumberError(args, k, UINT8_MAX)
  }

  /** The first of two errors, which is the one reported. */
  function Then(error: Error, next: Error): Error {
    if error != NoError then error else next
  }

  function ScanError(args: seq<string>, stackError: Error): Error {
    if args != [] && args[0] == "energy" then
      Then(NumberError(args, 1, UINT16_MAX), Then(ChannelError(args, 2), Deferred(stackError)))
    else
      Then(ChannelError(args, 0), Deferred(stackError))
  }

  function DiscoverError(args: seq<string>, stackError: Error): Error {
    Then(ChannelError(args, 0), Deferred(stackError))
  }

  function ConfigError(args: seq<string>, start: nat): Error {
    Then(AddressError(args, start),
         Then(NumberError(args, start + 1, UINT16_MAX),
              Then(NumberError(args, start + 2, UINT32_MAX),
                   Then(NumberError(args, start + 3, UINT8_MAX), NumberError(args, start + 4, UINT32_MAX)))))
  }

  function DnsError(args: seq<string>, discovery: bool, stackError: Error): Error {
    if args == [] then InvalidArgs
    else if args[0] == "config" then ConfigError(args, 1)
    else if args[0] == "resolve" || (discovery && args[0] == "browse") then
      Then(ConfigError(args, 2), Deferred(stackError))
    else if discovery && args[0] == "service" then Then(ConfigError(args, 3), Deferred(stackError))
    else InvalidCommand
  }

  function SntpError(args: seq<string>, busy: bool, stackError: Error): Error {
    if args == [] then InvalidArgs
    else if args[0] != "query" then InvalidCommand
    else if busy then Busy
    else Then(AddressError(args, 1), Then(NumberError(args, 2, UINT16_MAX), Deferred(stackError)))
  }

  ghost function MlrError(args: seq<string>, stackError: Error): Error {
    if args == [] || args[0] != "reg" then InvalidCommand
    else if exists r :: MlrArguments.Denotes(args[1..], r) then Deferred(stackError)
    else InvalidArgs
  }

  function TypesError(texts: seq<string>, k: nat): Error
    decreases MAX_DIAG_TYPES - k
  {
    if k >= |texts| || k >= MAX_DIAG_TYPES then NoError
    else if NumberError(texts, k, UINT8_MAX) != NoError then NumberError(texts, k, UINT8_MAX)
    else TypesError(texts, k + 1)
  }

  function DiagnosticError(args: seq<string>, stackError: Error): Error {
    if |args| <= 2 then InvalidArgs
    else
      var last :=
        if args[0] == "get" then Deferred(stackError) else if args[0] == "reset" then NoError else InvalidCommand;
      Then(AddressError(args, 1), Then(TypesError(args[2..], 0), last))
  }
}
