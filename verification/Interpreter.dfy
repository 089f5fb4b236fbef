/** The interpreter: dispatch of a line, deferred results, and the callbacks that print them. */
module Interpreter {
  import opened Base
  import opened CommandLine
  import opened LookupTable
  import opened Handlers
  import opened HandlerMethods

  const MAX_ARGS: nat := 32
  const MAX_LINE: nat := 384

  // ---------- States and events ----------

  /** What the interpreter prints, as far as results and dispatch are concerned. */
  datatype Output =
    | Done(error: Error)           // "Done" or "Error ..."
    | Name(name: string)           // a line of the help text
    | TooManyArgs
    | DiagModeNotice
    | UserCommand(index: nat, args: seq<string>)

  /**
   * A result, with the line that it answers. Lines are numbered as they are handled or rejected; a result
   * that the application appends answers no such line.
   */
  datatype Answer = Answer(line: Option<nat>, error: Error)

  datatype State = State(
    users: seq<string>,
    sntpBusy: bool,
    output: seq<Output>,
    answers: seq<Answer>,         // the results printed
    lines: nat,                   // lines given to a built-in handler or rejected as unknown
    outstanding: map<nat, Call>,  // what the stack has accepted and not reported on, by line
    diagnostics: map<nat, nat>,   // for each diagnostic request the number of responses
    responses: nat,               // all responses to diagnostic requests
    appended: nat)                // results that the application printed

  /**
   * What a line meets: whether diagnostics mode is on, what the stack answers to a request, what a
   * handler without deferred result returns, and which optional commands the build has.
   */
  datatype Environment = Environment(diagMode: bool, stackError: Error, plainError: Error, discovery: bool) {
    /** Only the interpreter itself uses `OT_ERROR_PENDING`. */
    predicate Honest() {
      stackError != Pending && plainError != Pending
    }
  }

  /**
   * Callbacks name the line whose operation they end or respond to. The last field of a response lists
   * what the stack returns as the interpreter asks for one TLV after the other. The application may append
   * a result at any time; those of a user command come right after its line.
   */
  datatype Event =
    | Line(text: string, env: Environment)
    | Complete(line: nat, error: Error)
    | DiagResponse(line: nat, error: Error, tlvs: seq<Error>)
    | SetUserCommands(names: seq<string>)
    | AppendResult(error: Error)

  function Initial(): State {
    State([], false, [], [], 0, map[], map[], 0, 0)
  }

  /** `OutputResult` prints nothing for a pending result. */
  function ResultLines(error: Error): seq<Output> {
    if error == Pending then [] else [Done(error)]
  }

  function Answers(line: Option<nat>, error: Error): seq<Answer> {
    if error == Pending then [] else [Answer(line, error)]
  }

  // ---------- Dispatch ----------

  datatype Target = Builtin(index: nat) | User(index: nat) | Unknown

  /** The first index of a name, or the length of the list. */
  function FirstIndex(names: seq<string>, name: string): (k: nat)
    ensures k <= |names| && (k < |names| ==> names[k] == name)
    ensures forall j :: 0 <= j < k ==> names[j] != name
  {
    if names == [] || names[0] == name then 0
    else
      var k := FirstIndex(names[1..], name);
      assert forall j :: 0 < j < |names| ==> names[j] == names[1..][j - 1];
      k + 1
  }

  /** The meaning of a first word, by linear scans: the built-in commands, then those of the user. */
  function Dispatch(table: seq<string>, users: seq<string>, name: string): Target {
    if FirstIndex(table, name) < |table| then Builtin(FirstIndex(table, name))
    else if FirstIndex(users, name) < |users| then User(FirstIndex(users, name))
    else Unknown
  }

  /** The lines that `help` prints. */
  function HelpText(table: seq<string>, users: seq<string>): seq<Output> {
    seq(|table| + |users|, k requires 0 <= k < |table| + |users| =>
      Name(if k < |table| then table[k] else users[k - |table|]))
  }

  // ---------- Steps ----------

  /** The stack call that a command denotes. */
  ghost predicate Denotes(name: string, args: seq<string>, busy: bool, discovery: bool, call: Call) {
    match name
    case "scan" => ScanDenotes(args, call)
    case "discover" => DiscoverDenotes(args, call)
    case "dns" => DnsDenotes(args, discovery, call)
    case "sntp" => SntpDenotes(args, busy, call)
    case "mlr" => MlrDenotes(args, call)
    case "networkdiagnostic" => DiagnosticDenotes(args, call)
    case _ => false
  }

  ghost predicate IsCall(name: string, args: seq<string>, busy: bool, discovery: bool, call: Option<Call>) {
    forall c :: Denotes(name, args, busy, discovery, c) <==> call == Some(c)
  }

  ghost function CallOf(name: string, args: seq<string>, busy: bool, discovery: bool): Option<Call> {
    if call :| Denotes(name, args, busy, discovery, call) then Some(call) else None
  }

  ghost function HandlerError(name: string, args: seq<string>, busy: bool, env: Environment): Error {
    match name
    case "scan" => ScanError(args, env.stackError)
    case "discover" => DiscoverError(args, env.stackError)
    case "dns" => DnsError(args, env.discovery, env.stackError)
    case "sntp" => SntpError(args, busy, env.stackError)
    case "mlr" => MlrError(args, env.stackError)
    case "networkdiagnostic" => DiagnosticError(args, env.stackError)
    case "help" => NoError
    case _ => env.plainError
  }

  /** What the stack keeps of the call that line `line` made. */
  function Outstanding(calls: map<nat, Call>, line: nat, call: Option<Call>, stackError: Error): map<nat, Call> {
    if Accepted(call, stackError) && !call.value.DiagnosticGet? then calls[line := call.value] else calls
  }

  function Requests(requests: map<nat, nat>, line: nat, call: Option<Call>, stackError: Error): map<nat, nat> {
    if Accepted(call, stackError) && call.value.DiagnosticGet? then requests[line := 0] else requests
  }

  function Querying(busy: bool, call: Option<Call>, stackError: Error): bool {
    busy || (Accepted(call, stackError) && call.value.SntpQuery?)
  }

  /** A built-in command: the handler calls the stack and returns a result, which is printed unless it is pending. */
  ghost function Handled(table: seq<string>, s: State, name: string, args: seq<string>, env: Environment): State {
    var error := HandlerError(name, args, s.sntpBusy, env);
    var call := CallOf(name, args, s.sntpBusy, env.discovery);
    s.(output := s.output + HelpFor(table, s.users, name) + ResultLines(error),
       answers := s.answers + Answers(Some(s.lines), error),
       lines := s.lines + 1,
       outstanding := Outstanding(s.outstanding, s.lines, call, env.stackError),
       diagnostics := Requests(s.diagnostics, s.lines, call, env.stackError),
       sntpBusy := Querying(s.sntpBusy, call, env.stackError))
  }

  function HelpFor(table: seq<string>, users: seq<string>, name: string): seq<Output> {
    if name == "help" then HelpText(table, users) else []
  }

  ghost function Dispatched(table: seq<string>, s: State, args: seq<string>, env: Environment): State
    requires args != []
  {
    match Dispatch(table, s.users, args[0])
    case Builtin(_) => Handled(table, s, args[0], args[1..], env)
    case User(index) => s.(output := s.output + [UserCommand(index, args[1..])])
    case Unknown =>
      s.(output := s.output + [Done(InvalidCommand)], answers := s.answers + [Answer(Some(s.lines), InvalidCommand)],
         lines := s.lines + 1)
  }

  ghost function LineStep(table: seq<string>, s: State, text: string, env: Environment): State {
    var args := Arguments(text);
    if |text| > MAX_LINE - 1 then s
    else if |args| > MAX_ARGS then s.(output := s.output + [TooManyArgs])
    else if args == [] then s
    else if env.diagMode && args[0] != "diag" then s.(output := s.output + [DiagModeNotice])
    else Dispatched(table, s, args, env)
  }

  /** Scans and SNTP queries always end with "Done"; other operations report the error of the callback. */
  function CompletionError(call: Call, error: Error): Error {
    if call.ActiveScan? || call.EnergyScan? || call.Discover? || call.SntpQuery? then NoError else error
  }

  /** The first error among what the stack returns, which ends the loop over the TLVs. */
  function Ending(tlvs: seq<Error>): Error {
    if tlvs == [] then NotFound else if tlvs[0] != NoError then tlvs[0] else Ending(tlvs[1..])
  }

  /** A response is done when all its TLVs could be read. */
  function ResponseError(error: Error, tlvs: seq<Error>): Error {
    if error != NoError then error else if Ending(tlvs) == NotFound then NoError else Ending(tlvs)
  }

  ghost function Completed(s: State, line: nat, error: Error): State
    requires line in s.outstanding
  {
    var call := s.outstanding[line];
    var result := CompletionError(call, error);
    s.(output := s.output + ResultLines(result),
       answers := s.answers + Answers(Some(line), result),
       outstanding := s.outstanding - {line},
       sntpBusy := s.sntpBusy && !call.SntpQuery?)
  }

  ghost function Responded(s: State, line: nat, error: Error, tlvs: seq<Error>): State
    requires line in s.diagnostics
  {
    var result := ResponseError(error, tlvs);
    s.(output := s.output + ResultLines(result),
       answers := s.answers + Answers(Some(line), result),
       diagnostics := s.diagnostics[line := s.diagnostics[line] + 1],
       responses := s.responses + 1)
  }

  /** A result that the application prints through the interpreter. */
  ghost function Appended(s: State, error: Error): State {
    s.(output := s.output + ResultLines(error),
       answers := s.answers + Answers(None, error),
       appended := s.appended + |ResultLines(error)|)
  }

  /** Callbacks come only for what is outstanding, and only the interpreter itself uses `OT_ERROR_PENDING`. */
  predicate Allowed(s: State, e: Event) {
    match e
    case Line(_, env) => env.Honest()
    case Complete(line, error) => line in s.outstanding && error != Pending
    case DiagResponse(line, error, tlvs) => line in s.diagnostics && error != Pending && Pending !in tlvs
    case SetUserCommands(_) => true
    case AppendResult(_) => true
  }

  ghost function Step(table: seq<string>, s: State, e: Event): State
    requires Allowed(s, e)
  {
    match e
    case Line(text, env) => LineStep(table, s, text, env)
    case Complete(line, error) => Completed(s, line, error)
    case DiagResponse(line, error, tlvs) => Responded(s, line, error, tlvs)
    case SetUserCommands(names) => s.(users := names)
    case AppendResult(error) => Appended(s, error)
  }

  // ---------- The interpreter ----------

  class Interpreter {
    const table: seq<string>
    var userCommands: seq<string>
    var sntpQueryingInProgress: bool
    var output: seq<Output>
    ghost var answers: seq<Answer>
    ghost var lines: nat
    ghost var outstanding: map<nat, Call>
    ghost var diagnostics: map<nat, nat>
    ghost var responses: nat
    ghost var appended: nat

    ghost predicate Valid() {
      IsSorted(table) && |table| <= 0xffff
    }

    ghost function Abstract(): State
      reads this
    {
      State(userCommands, sntpQueryingInProgress, output, answers, lines, outstanding, diagnostics, responses, appended)
    }

    constructor (names: seq<string>)
      requires IsSorted(names) && |names| <= 0xffff
      ensures Valid() && table == names && Abstract() == Initial()
    {
      table := names;
      userCommands, sntpQueryingInProgress, output := [], false, [];
      answers, lines, outstanding, diagnostics, responses, appended := [], 0, map[], map[], 0, 0;
    }

    method SetUserCommands(names: seq<string>)
      modifies this
      ensures Abstract() == old(Abstract()).(users := names)
    {
      userCommands := names;
    }

    /** Prints the result of a line, or nothing if it is pending. */
    method OutputResult(error: Error, ghost line: Option<nat>)
      modifies `output, `answers
      ensures output == old(output) + ResultLines(error)
      ensures answers == old(answers) + Answers(line, error)
    {
      if error != Pending {
        output := output + [Done(error)];
        answers := answers + [Answer(line, error)];
      }
    }

    /** `otCliAppendResult`. */
    method AppendResult(error: Error)
      modifies this
      ensures Abstract() == Appended(old(Abstract()), error)
    {
      OutputResult(error, None);
      appended := appended + |ResultLines(error)|;
    }

    method ProcessHelp()
      modifies `output
      ensures output == old(output) + HelpText(table, userCommands)
    {
      ghost var text := HelpText(table, userCommands);
      for k := 0 to |table|
        invariant output == old(output) + text[..k]
      {
        output := output + [Name(table[k])];
      }
      for i := 0 to |userCommands|
        invariant output == old(output) + text[..|table| + i]
      {
        output := output + [Name(userCommands[i])];
      }
      assert text[..|table| + |userCommands|] == text;
    }

    method ProcessSntp(args: seq<string>, stackError: Error) returns (error: Error, call: Option<Call>)
      modifies `sntpQueryingInProgress
      ensures forall c :: SntpDenotes(args, old(sntpQueryingInProgress), c) <==> call == Some(c)
      ensures error == SntpError(args, old(sntpQueryingInProgress), stackError)
      ensures sntpQueryingInProgress == Querying(old(sntpQueryingInProgress), call, stackError)
    {
      hide SntpError;
      error, call := HandlerMethods.ProcessSntp(args, sntpQueryingInProgress, stackError);
      if call.Some? && stackError == NoError {
        sntpQueryingInProgress := true;
      }
    }

    /**
     * Runs a built-in handler, which makes the stack call that the command denotes, if it denotes one. The
     * result is pending exactly when the stack has accepted a call on which it will report.
     */
    method RunHandler(name: string, args: seq<string>, env: Environment) returns (error: Error, call: Option<Call>)
      modifies `output, `sntpQueryingInProgress
      ensures IsCall(name, args, old(sntpQueryingInProgress), env.discovery, call)
      ensures env.Honest() ==> (error == Pending <==> Accepted(call, env.stackError))
      ensures env.Honest() && call.Some? && call.value.HasCallback() && env.stackError != NoError ==>
          error == env.stackError
      ensures error == HandlerError(name, args, old(sntpQueryingInProgress), env)
      ensures output == old(output) + HelpFor(table, userCommands, name)
      ensures sntpQueryingInProgress == Querying(old(sntpQueryingInProgress), call, env.stackError)
    {
      ghost var busy := sntpQueryingInProgress;
      call := None;
      match name {
        case "scan" => error, call := ProcessScan(args, env.stackError);
        case "discover" => error, call := ProcessDiscover(args, env.stackError);
        case "dns" => error, call := ProcessDns(args, env.discovery, env.stackError);
        case "sntp" => error, call := ProcessSntp(args, env.stackError);
        case "mlr" => error, call := ProcessMlr(args, env.stackError);
        case "networkdiagnostic" => error, call := ProcessNetworkDiagnostic(args, env.stackError);
        case "help" =>
          ProcessHelp();
          error := NoError;
        case _ => error := env.plainError;
      }
      if env.Honest() {
        PendingIffAccepted(name, args, busy, env, call);
      }
    }

    /** Reads the arguments that the tokenizer left in the buffer. */
    method ReadArguments(buf: array<char>, offsets: seq<nat>) returns (args: seq<string>)
      requires forall k :: 0 <= k < |offsets| ==> offsets[k] <= buf.Length
      ensures |args| == |offsets| && forall k :: 0 <= k < |args| ==> args[k] == CString(buf[..], offsets[k])
    {
      args := [];
      for k := 0 to |offsets|
        invariant |args| == k && forall j :: 0 <= j < k ==> args[j] == CString(buf[..], offsets[j])
      {
        args := args + [CString(buf[..], offsets[k])];
      }
    }

    /** A line, as a terminated string in a buffer that the tokenizer may overwrite. */
    method ProcessLine(buf: array<char>, ghost text: string, env: Environment)
      requires Valid() && Holds(buf[..], 0, text)
      modifies this, buf
      ensures Abstract() == LineStep(table, old(Abstract()), text, env)
    {
      hide Arguments, CString;
      var length := Strlen(buf, 0, text);
      if length > MAX_LINE - 1 {
        return;
      }
      var error, offsets := ParseCmd(buf, text, MAX_ARGS);
      if error != NoError {
        output := output + [TooManyArgs];
        return;
      }
      var args := ReadArguments(buf, offsets);
      assert args == Arguments(text);
      if |args| < 1 {
        return;
      }
      if env.diagMode && args[0] != "diag" {
        output := output + [DiagModeNotice];
        return;
      }
      DispatchArguments(args, env);
    }

    method RunBuiltin(name: string, args: seq<string>, env: Environment)
      modifies this
      ensures Abstract() == Handled(table, old(Abstract()), name, args, env)
    {
      hide HandlerError, HelpFor, ResultLines, Answers, Outstanding, Requests, Querying, IsCall, CallOf;
      var error, call := RunHandler(name, args, env);
      CallIsUnique(name, args, old(sntpQueryingInProgress), env.discovery, call);
      OutputResult(error, Some(lines));
      outstanding := Outstanding(outstanding, lines, call, env.stackError);
      diagnostics := Requests(diagnostics, lines, call, env.stackError);
      lines := lines + 1;
    }

    method DispatchArguments(args: seq<string>, env: Environment)
      requires Valid() && args != []
      modifies this
      ensures Abstract() == Dispatched(table, old(Abstract()), args, env)
    {
      hide Handled;
      var command := Find(args[0], table);
      if command.Some? {
        RunBuiltin(args[0], args[1..], env);
        return;
      }
      for i := 0 to |userCommands|
        invariant Abstract() == old(Abstract())
        invariant forall j :: 0 <= j < i ==> userCommands[j] != args[0]
      {
        if args[0] == userCommands[i] {
          output := output + [UserCommand(i, args[1..])];
          return;
        }
      }
      OutputResult(InvalidCommand, Some(lines));
      lines := lines + 1;
    }

    /** The end of a scan or a discovery, reported by a null result. */
    method HandleScanEnd(ghost line: nat)
      requires line in outstanding
      requires outstanding[line].ActiveScan? || outstanding[line].EnergyScan? || outstanding[line].Discover?
      modifies this
      ensures Abstract() == Completed(old(Abstract()), line, NoError)
      ensures output == old(output) + [Done(NoError)]
    {
      OutputResult(NoError, Some(line));
      outstanding := outstanding - {line};
    }

    /** The response to a DNS query of any kind. */
    method HandleDnsResponse(error: Error, ghost line: nat)
      requires line in outstanding
      requires outstanding[line].ResolveAddress? || outstanding[line].Browse? || outstanding[line].ResolveService?
      modifies this
      ensures Abstract() == Completed(old(Abstract()), line, error)
      ensures error != Pending ==>
          output == old(output) + [Done(error)] && answers == old(answers) + [Answer(Some(line), error)]
    {
      OutputResult(error, Some(line));
      outstanding := outstanding - {line};
    }

    method HandleSntpResponse(error: Error, ghost line: nat)
      requires line in outstanding && outstanding[line].SntpQuery?
      modifies this
      ensures Abstract() == Completed(old(Abstract()), line, error)
      ensures output == old(output) + [Done(NoError)]
    {
      sntpQueryingInProgress := false;
      OutputResult(NoError, Some(line));
      outstanding := outstanding - {line};
    }

    method HandleMlrRegResult(error: Error, ghost line: nat)
      requires line in outstanding && outstanding[line].RegisterListeners?
      modifies this
      ensures Abstract() == Completed(old(Abstract()), line, error)
      ensures error != Pending ==>
          output == old(output) + [Done(error)] && answers == old(answers) + [Answer(Some(line), error)]
    {
      OutputResult(error, Some(line));
      outstanding := outstanding - {line};
    }

    /** A response to a diagnostic request: its TLVs are read until the stack returns an error. */
    method HandleDiagnosticGetResponse(error: Error, tlvs: seq<Error>, ghost line: nat)
      requires line in diagnostics
      modifies this
      ensures Abstract() == Responded(old(Abstract()), line, error, tlvs)
    {
      var result := error;
      if result == NoError {
        var k := 0;
        result := if k < |tlvs| then tlvs[k] else NotFound;
        assert tlvs[0..] == tlvs;
        while result == NoError
          invariant k <= |tlvs| && Ending(tlvs) == Ending(tlvs[k..])
          invariant result == if k < |tlvs| then tlvs[k] else NotFound
          decreases |tlvs| - k
        {
          k := k + 1;
          result := if k < |tlvs| then tlvs[k] else NotFound;
        }
        if result == NotFound {
          result := NoError;
        }
      }
      OutputResult(result, Some(line));
      diagnostics := diagnostics[line := diagnostics[line] + 1];
      responses := responses + 1;
    }
  }

  // ---------- Calls and pending results ----------

  lemma CallIsUnique(name: string, args: seq<string>, busy: bool, discovery: bool, call: Option<Call>)
    requires IsCall(name, args, busy, discovery, call)
    ensures call == CallOf(name, args, busy, discovery)
  {
    if call.Some? {
      assert Denotes(name, args, busy, discovery, call.value);
    }
  }

  /**
   * Of every command: the result is pending exactly when the stack has accepted a call on which it will
   * report, and a call that it refuses returns the error of the stack.
   */
  lemma PendingIffAccepted(name: string, args: seq<string>, busy: bool, env: Environment, call: Option<Call>)
    requires env.Honest() && IsCall(name, args, busy, env.discovery, call)
    ensures HandlerError(name, args, busy, env) == Pending <==> Accepted(call, env.stackError)
    ensures call.Some? && call.value.HasCallback() && env.stackError != NoError ==>
        HandlerError(name, args, busy, env) == env.stackError
  {
    hide ScanError, ScanDenotes, DiscoverError, DiscoverDenotes, DnsError, DnsDenotes, SntpError, SntpDenotes, MlrError,
      MlrDenotes, DiagnosticError, DiagnosticDenotes;
    match name {
      case "scan" => ScanPendingIff(args, env.stackError);
      case "discover" => DiscoverPendingIff(args, env.stackError);
      case "dns" => DnsPendingIff(args, env.discovery, env.stackError);
      case "sntp" => SntpPendingIff(args, busy, env.stackError);
      case "mlr" => MlrPendingIff(args, env.stackError);
      case "networkdiagnostic" => DiagnosticPendingIff(args, env.stackError);
      case _ =>
    }
    assert (exists c: Call :: c.HasCallback() && Denotes(name, args, busy, env.discovery, c)) <==>
           call.Some? && call.value.HasCallback();
  }

  /**
   * Of the commands that call the stack: "Done" is printed at once exactly when a call was made on which the
   * stack does not report, or when `dns config` lists the configuration.
   */
  lemma DoneAtOnceIff(name: string, args: seq<string>, busy: bool, env: Environment, call: Option<Call>)
    requires name in ["scan", "discover", "dns", "sntp", "mlr", "networkdiagnostic"]
    requires IsCall(name, args, busy, env.discovery, call)
    ensures HandlerError(name, args, busy, env) == NoError <==>
            (call.Some? && !call.value.HasCallback()) || (name == "dns" && args == ["config"])
  {
    assert (exists c: Call :: !c.HasCallback() && Denotes(name, args, busy, env.discovery, c)) <==>
           call.Some? && !call.value.HasCallback();
    hide IsCall, DnsError, DnsDenotes, DiagnosticError, DiagnosticDenotes;
    match name {
      case "dns" => DnsDoneIff(args, env.discovery, env.stackError);
      case "networkdiagnostic" => DiagnosticDoneIff(args, env.stackError);
      case _ =>
    }
  }

  /** A command denotes at most one call. */
  lemma CallsUnique(name: string, args: seq<string>, busy: bool, discovery: bool, c: Call, d: Call)
    requires Denotes(name, args, busy, discovery, c) && Denotes(name, args, busy, discovery, d)
    ensures c == d
  {
    hide ScanDenotes, DiscoverDenotes, DnsDenotes, SntpDenotes, MlrDenotes, DiagnosticDenotes;
    match name {
      case "scan" => ScanUnique(args, c, d);
      case "discover" => DiscoverUnique(args, c, d);
      case "dns" => DnsUnique(args, discovery, c, d);
      case "sntp" => SntpUnique(args, busy, c, d);
      case "mlr" => MlrUnique(args, c, d);
      case "networkdiagnostic" => DiagnosticUnique(args, c, d);
      case _ =>
    }
  }
}
