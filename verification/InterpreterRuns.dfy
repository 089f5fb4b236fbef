/** Whole runs of the interpreter: lines interleaved with callbacks in any order. */
module InterpreterRuns {
  import opened Base
  import opened CommandLine
  import opened Handlers
  import opened Interpreter

  // ---------- Runs ----------

  /** `states` is a run of the interpreter on `events` from its initial state. */
  ghost predicate IsRun(table: seq<string>, states: seq<State>, events: seq<Event>) {
    && |states| == |events| + 1
    && states[0] == Initial()
    && forall k :: 0 <= k < |events| ==>
         Allowed(states[k], events[k]) && states[k + 1] == Step(table, states[k], events[k])
  }

  /** The results among the lines printed, in order. */
  function Printed(output: seq<Output>): seq<Error> {
    if output == [] then []
    else
      var last := output[|output| - 1];
      Printed(output[..|output| - 1]) + if last.Done? then [last.error] else []
  }

  function Errors(answers: seq<Answer>): (errors: seq<Error>)
    ensures |errors| == |answers|
  {
    seq(|answers|, k requires 0 <= k < |answers| => answers[k].error)
  }

  /** The number of results that a line has had. */
  function Count(answers: seq<Answer>, line: nat): nat {
    if answers == [] then 0
    else Count(answers[..|answers| - 1], line) + if answers[|answers| - 1].line == Some(line) then 1 else 0
  }

  // ---------- The invariant ----------

  /** How many results a line is due: as many as responses to a diagnostic request, none yet or one otherwise. */
  function Due(s: State, line: nat): nat {
    if line in s.diagnostics then s.diagnostics[line]
    else if line in s.outstanding || line >= s.lines then 0
    else 1
  }

  predicate IsQuery(calls: map<nat, Call>, line: nat) {
    line in calls && calls[line].SntpQuery?
  }

  /** The flag is set exactly while a query is outstanding, and there is never more than one. */
  ghost predicate FlagIsRight(s: State) {
    && (s.sntpBusy <==> exists line :: IsQuery(s.outstanding, line))
    && (forall i, j :: IsQuery(s.outstanding, i) && IsQuery(s.outstanding, j) ==> i == j)
  }

  ghost predicate Invariant(s: State) {
    && Printed(s.output) == Errors(s.answers)
    && (forall line: nat :: Count(s.answers, line) == Due(s, line))
    && (forall line :: line in s.outstanding ==> line < s.lines && line !in s.diagnostics)
    && (forall line :: line in s.diagnostics ==> line < s.lines)
    && (forall line :: line in s.outstanding ==>
          s.outstanding[line].HasCallback() && !s.outstanding[line].DiagnosticGet?)
    && FlagIsRight(s)
    && |s.answers| + |s.outstanding| + |s.diagnostics| == s.lines + s.responses + s.appended
  }

  lemma {:induction false} PrintedConcat(a: seq<Output>, b: seq<Output>)
    ensures Printed(a + b) == Printed(a) + Printed(b)
  {
    if b == [] {
      assert a + b == a;
    } else {
      PrintedConcat(a, b[..|b| - 1]);
      assert (a + b)[..|a + b| - 1] == a + b[..|b| - 1];
    }
  }

  lemma {:induction false} NoResults(output: seq<Output>)
    requires forall k :: 0 <= k < |output| ==> !output[k].Done?
    ensures Printed(output) == []
  {
    if output != [] {
      NoResults(output[..|output| - 1]);
    }
  }

  lemma CountSnoc(answers: seq<Answer>, answer: Answer, line: nat)
    ensures Count(answers + [answer], line) == Count(answers, line) + if answer.line == Some(line) then 1 else 0
  {
    assert (answers + [answer])[..|answers|] == answers;
  }

  /** Printing one result adds it to what is printed and to the answers alike. */
  lemma PrintResult(output: seq<Output>, answers: seq<Answer>, line: Option<nat>, error: Error)
    requires Printed(output) == Errors(answers)
    ensures Printed(output + ResultLines(error)) == Errors(answers + Answers(line, error))
    ensures forall other: nat :: Count(answers + Answers(line, error), other) ==
                                 Count(answers, other) + if error != Pending && line == Some(other) then 1 else 0
  {
    if error == Pending {
      assert output + [] == output && answers + [] == answers;
    } else {
      PrintedConcat(output, [Done(error)]);
      assert [Done(error)][..0] == [];
      assert Errors(answers + [Answer(line, error)]) == Errors(answers) + [error];
      forall other: nat
        ensures Count(answers + Answers(line, error), other) ==
                Count(answers, other) + if line == Some(other) then 1 else 0
      {
        CountSnoc(answers, Answer(line, error), other);
      }
    }
  }

  /** Lines that are no results change nothing. */
  lemma PrintOther(output: seq<Output>, more: seq<Output>)
    requires forall k :: 0 <= k < |more| ==> !more[k].Done?
    ensures Printed(output + more) == Printed(output)
  {
    PrintedConcat(output, more);
    NoResults(more);
  }

  // ---------- Every step keeps it ----------

  lemma Added<T>(m: map<nat, T>, k: nat, v: T)
    requires k !in m
    ensures |m[k := v]| == |m| + 1
  {
    assert m[k := v].Keys == m.Keys + {k};
  }

  lemma Removed<T>(m: map<nat, T>, k: nat)
    requires k in m
    ensures |m - {k}| == |m| - 1
  {
    assert (m - {k}).Keys == m.Keys - {k};
  }

  /** The result and the stack's record of one new line, whatever the line was. */
  lemma NewLine(s: State, t: State, call: Option<Call>, stackError: Error, error: Error, help: seq<Output>)
    requires Invariant(s) && (error == Pending <==> Accepted(call, stackError))
    requires s.sntpBusy && call.Some? ==> !call.value.SntpQuery?
    requires forall k :: 0 <= k < |help| ==> !help[k].Done?
    requires t.output == s.output + help + ResultLines(error) && t.answers == s.answers + Answers(Some(s.lines), error)
    requires t.lines == s.lines + 1 && t.responses == s.responses && t.appended == s.appended
    requires t.outstanding == Outstanding(s.outstanding, s.lines, call, stackError)
    requires t.diagnostics == Requests(s.diagnostics, s.lines, call, stackError)
    requires t.sntpBusy == Querying(s.sntpBusy, call, stackError)
    ensures Invariant(t)
  {
    hide Printed, Errors, Count, ResultLines, FlagIsRight;
    PrintOther(s.output, help);
    PrintResult(s.output + help, s.answers, Some(s.lines), error);
    if Accepted(call, stackError) {
      if call.value.DiagnosticGet? {
        Added(s.diagnostics, s.lines, 0);
      } else {
        Added(s.outstanding, s.lines, call.value);
      }
      OtherFlags(s, t, call.value);
    } else {
      SameFlag(s, t);
    }
  }

  lemma SameFlag(s: State, t: State)
    requires FlagIsRight(s) && t.outstanding == s.outstanding && t.sntpBusy == s.sntpBusy
    ensures FlagIsRight(t)
  {
  }

  lemma OtherFlags(s: State, t: State, call: Call)
    requires FlagIsRight(s) && s.lines !in s.outstanding && (s.sntpBusy ==> !call.SntpQuery?)
    requires t.outstanding == s.outstanding[s.lines := call] || (t.outstanding == s.outstanding && !call.SntpQuery?)
    requires t.sntpBusy == (s.sntpBusy || call.SntpQuery?)
    ensures FlagIsRight(t)
  {
    if t.outstanding == s.outstanding[s.lines := call] {
      assert forall line :: IsQuery(t.outstanding, line) <==>
          IsQuery(s.outstanding, line) || (line == s.lines && call.SntpQuery?);
    }
  }

  lemma HelpIsNoResult(table: seq<string>, users: seq<string>, name: string)
    ensures var help := HelpFor(table, users, name); forall k :: 0 <= k < |help| ==> !help[k].Done?
  {
  }

  lemma CallOfIsCall(name: string, args: seq<string>, busy: bool, discovery: bool)
    ensures IsCall(name, args, busy, discovery, CallOf(name, args, busy, discovery))
    ensures var call := CallOf(name, args, busy, discovery); busy && call.Some? ==> !call.value.SntpQuery?
  {
    var call := CallOf(name, args, busy, discovery);
    if call.Some? {
      forall c | Denotes(name, args, busy, discovery, c) ensures c == call.value {
        CallsUnique(name, args, busy, discovery, c, call.value);
      }
    }
  }

  lemma HandledKeepsInvariant(table: seq<string>, s: State, name: string, args: seq<string>, env: Environment)
    requires Invariant(s) && env.Honest()
    ensures Invariant(Handled(table, s, name, args, env))
  {
    var call := CallOf(name, args, s.sntpBusy, env.discovery);
    CallOfIsCall(name, args, s.sntpBusy, env.discovery);
    PendingIffAccepted(name, args, s.sntpBusy, env, call);
    HelpIsNoResult(table, s.users, name);
    hide Invariant, HandlerError, IsCall, CallOf, HelpFor;
    NewLine(s, Handled(table, s, name, args, env), call, env.stackError, HandlerError(name, args, s.sntpBusy, env),
            HelpFor(table, s.users, name));
  }

  /** Output that is no result keeps the invariant. */
  lemma OtherOutput(s: State, line: Output)
    requires Invariant(s) && !line.Done?
    ensures Invariant(s.(output := s.output + [line]))
  {
    hide Printed, Errors, Count;
    PrintOther(s.output, [line]);
  }

  lemma LineKeepsInvariant(table: seq<string>, s: State, text: string, env: Environment)
    requires Invariant(s) && env.Honest()
    ensures Invariant(LineStep(table, s, text, env))
  {
    hide Arguments, Handled, Invariant;
    var args := Arguments(text);
    OtherOutput(s, TooManyArgs);
    OtherOutput(s, DiagModeNotice);
    if args != [] {
      HandledKeepsInvariant(table, s, args[0], args[1..], env);
      match Dispatch(table, s.users, args[0])
      case Builtin(_) =>
      case User(index) => OtherOutput(s, UserCommand(index, args[1..]));
      case Unknown =>
        assert s.output + [] == s.output;
        NewLine(s, Dispatched(table, s, args, env), None, NoError, InvalidCommand, []);
    }
  }

  lemma CompletionKeepsInvariant(s: State, line: nat, error: Error)
    requires Invariant(s) && line in s.outstanding && error != Pending
    ensures Invariant(Completed(s, line, error))
  {
    hide Printed, Errors, Count, ResultLines, FlagIsRight;
    var t := Completed(s, line, error);
    PrintResult(s.output, s.answers, Some(line), CompletionError(s.outstanding[line], error));
    Removed(s.outstanding, line);
    FlagAfterCompletion(s, t, line);
    hide Answers;
    assert forall other :: other in t.outstanding <==> other in s.outstanding && other != line;
  }

  lemma FlagAfterCompletion(s: State, t: State, line: nat)
    requires FlagIsRight(s) && line in s.outstanding && t.outstanding == s.outstanding - {line}
    requires t.sntpBusy == (s.sntpBusy && !s.outstanding[line].SntpQuery?)
    ensures FlagIsRight(t)
  {
    assert forall other :: IsQuery(t.outstanding, other) <==> IsQuery(s.outstanding, other) && other != line;
    if s.outstanding[line].SntpQuery? {
      assert IsQuery(s.outstanding, line);
    } else if s.sntpBusy {
      var other :| IsQuery(s.outstanding, other);
      assert IsQuery(t.outstanding, other);
    }
  }

  lemma {:induction false} EndingIsAmong(tlvs: seq<Error>)
    ensures Ending(tlvs) == NotFound || Ending(tlvs) in tlvs
  {
    if tlvs != [] {
      EndingIsAmong(tlvs[1..]);
    }
  }

  lemma ResponseKeepsInvariant(s: State, line: nat, error: Error, tlvs: seq<Error>)
    requires Invariant(s) && line in s.diagnostics && error != Pending && Pending !in tlvs
    ensures Invariant(Responded(s, line, error, tlvs))
  {
    hide Printed, Errors, Count, ResultLines, Ending, FlagIsRight;
    EndingIsAmong(tlvs);
    PrintResult(s.output, s.answers, Some(line), ResponseError(error, tlvs));
    assert s.diagnostics[line := s.diagnostics[line] + 1].Keys == s.diagnostics.Keys;
    SameFlag(s, Responded(s, line, error, tlvs));
  }

  /** Results of the application answer no line and change nothing else. */
  lemma AppendKeepsInvariant(s: State, error: Error)
    requires Invariant(s)
    ensures Invariant(Appended(s, error))
  {
    hide Printed, Errors, Count, FlagIsRight;
    PrintResult(s.output, s.answers, None, error);
    SameFlag(s, Appended(s, error));
  }

  lemma StepKeepsInvariant(table: seq<string>, s: State, e: Event)
    requires Invariant(s) && Allowed(s, e)
    ensures Invariant(Step(table, s, e))
  {
    hide LineStep, Completed, Responded, Appended;
    match e
    case Line(text, env) => LineKeepsInvariant(table, s, text, env);
    case Complete(line, error) => CompletionKeepsInvariant(s, line, error);
    case DiagResponse(line, error, tlvs) => ResponseKeepsInvariant(s, line, error, tlvs);
    case SetUserCommands(_) =>
    case AppendResult(error) => AppendKeepsInvariant(s, error);
  }

  // ---------- Every run ----------

  /** The invariant holds in every state of every run. */
  lemma {:induction false} RunsKeepInvariant(table: seq<string>, states: seq<State>, events: seq<Event>, k: nat)
    requires IsRun(table, states, events) && k < |states|
    ensures Invariant(states[k])
  {
    if k == 0 {
      assert Printed([]) == [] == Errors([]);
    } else {
      RunsKeepInvariant(table, states, events, k - 1);
      hide Invariant, Step;
      StepKeepsInvariant(table, states[k - 1], events[k - 1]);
    }
  }

  /**
   * Line by line, in every state of every run: a line that was handled or rejected, and that sent no
   * diagnostic request, either waits for exactly one operation of the stack and has no result, or waits
   * for none and has exactly one result.
   */
  lemma OneResultPerLine(table: seq<string>, states: seq<State>, events: seq<Event>, k: nat, line: nat)
    requires IsRun(table, states, events) && k < |states|
    requires line < states[k].lines && line !in states[k].diagnostics
    ensures Count(states[k].answers, line) == if line in states[k].outstanding then 0 else 1
    ensures Printed(states[k].output) == Errors(states[k].answers)
  {
    RunsKeepInvariant(table, states, events, k);
  }

  /** A diagnostic request has one result for each response. */
  lemma OneResultPerResponse(table: seq<string>, states: seq<State>, events: seq<Event>, k: nat, line: nat)
    requires IsRun(table, states, events) && k < |states| && line in states[k].diagnostics
    ensures Count(states[k].answers, line) == states[k].diagnostics[line]
  {
    RunsKeepInvariant(table, states, events, k);
  }

  /** When nothing is outstanding, every line but the diagnostic requests has had exactly one result. */
  lemma QuietMeansAnswered(table: seq<string>, states: seq<State>, events: seq<Event>, k: nat)
    requires IsRun(table, states, events) && k < |states| && states[k].outstanding == map[]
    ensures forall line: nat :: line < states[k].lines && line !in states[k].diagnostics ==>
        Count(states[k].answers, line) == 1
    ensures !states[k].sntpBusy
  {
    RunsKeepInvariant(table, states, events, k);
  }

  /** Results are final: what is printed stays, and an answered line is never answered again. */
  lemma {:induction false} AnsweredForGood(table: seq<string>, states: seq<State>, events: seq<Event>, i: nat, j: nat,
                                           line: nat)
    requires IsRun(table, states, events) && i <= j < |states|
    requires line < states[i].lines && line !in states[i].outstanding && line !in states[i].diagnostics
    ensures states[i].answers <= states[j].answers
    ensures line < states[j].lines && line !in states[j].outstanding && line !in states[j].diagnostics
    ensures Count(states[i].answers, line) == Count(states[j].answers, line) == 1
    decreases j - i
  {
    hide Count, Printed, Errors, Step, Allowed;
    if i < j {
      AnsweredForGood(table, states, events, i, j - 1, line);
      StepKeepsAnswers(table, states[j - 1], events[j - 1], line);
    }
    OneResultPerLine(table, states, events, i, line);
    OneResultPerLine(table, states, events, j, line);
  }

  lemma StepKeepsAnswers(table: seq<string>, s: State, e: Event, line: nat)
    requires Allowed(s, e) && line < s.lines && line !in s.outstanding && line !in s.diagnostics
    ensures var t := Step(table, s, e);
            s.answers <= t.answers && line < t.lines && line !in t.outstanding && line !in t.diagnostics
  {
    hide Arguments, HandlerError, CallOf, HelpFor, ResultLines;
  }

  // ---------- What a line's result says ----------

  /** The results that a line has had, in order. */
  function ResultsOf(answers: seq<Answer>, line: nat): seq<Error> {
    if answers == [] then []
    else
      var last := answers[|answers| - 1];
      ResultsOf(answers[..|answers| - 1], line) + if last.line == Some(line) then [last.error] else []
  }

  lemma {:induction false} AsManyAsCounted(answers: seq<Answer>, line: nat)
    ensures |ResultsOf(answers, line)| == Count(answers, line)
  {
    if answers != [] {
      AsManyAsCounted(answers[..|answers| - 1], line);
    }
  }

  lemma {:induction false} ResultIn(answers: seq<Answer>, line: nat, i: nat)
    requires i < |answers| && answers[i].line == Some(line) && Count(answers, line) == 1
    ensures ResultsOf(answers, line) == [answers[i].error]
  {
    var init := answers[..|answers| - 1];
    AsManyAsCounted(init, line);
    if i < |init| {
      Counted(init, line, i);
      ResultIn(init, line, i);
    }
  }

  lemma {:induction false} Counted(answers: seq<Answer>, line: nat, i: nat)
    requires i < |answers| && answers[i].line == Some(line)
    ensures Count(answers, line) >= 1
  {
    if i < |answers| - 1 {
      Counted(answers[..|answers| - 1], line, i);
    }
  }

  /**
   * Of every run: when an operation ends, one result is printed for its line. It is the error that the
   * callback reports for a DNS query or a listener registration, and "Done" for a scan, a discovery or an SNTP
   * query. It is the only result that the line ever has.
   */
  lemma CompletionResult(table: seq<string>, states: seq<State>, events: seq<Event>, k: nat, line: nat, error: Error,
                         j: nat)
    requires IsRun(table, states, events) && k < |events| && k < j < |states| && events[k] == Complete(line, error)
    ensures line in states[k].outstanding
    ensures var s, t, call := states[k], states[k + 1], states[k].outstanding[line];
            && |t.answers| == |s.answers| + 1 && s.answers <= t.answers <= states[j].answers
            && var answer := t.answers[|s.answers|];
               && answer.line == Some(line) && t.output == s.output + [Done(answer.error)]
               && (match call
                   case ResolveAddress(_, _) => answer.error == error
                   case Browse(_, _) => answer.error == error
                   case ResolveService(_, _, _) => answer.error == error
                   case RegisterListeners(_) => answer.error == error
                   case _ =>
                     && (call.ActiveScan? || call.EnergyScan? || call.Discover? || call.SntpQuery?)
                     && answer.error == NoError)
               && ResultsOf(states[j].answers, line) == [answer.error]
  {
    hide Count, Printed, Errors, Due, FlagIsRight, ResultsOf;
    RunsKeepInvariant(table, states, events, k);
    AnsweredForGood(table, states, events, k + 1, j, line);
    ResultIn(states[j].answers, line, |states[k].answers|);
  }

  /**
   * Of every run: a response to a diagnostic request prints its own error, or else "Done" if its TLVs can be
   * read to the end, or else the first error in reading them.
   */
  lemma ResponseResult(table: seq<string>, states: seq<State>, events: seq<Event>, k: nat, line: nat, error: Error,
                       tlvs: seq<Error>, n: nat)
    requires IsRun(table, states, events) && k < |events| && events[k] == DiagResponse(line, error, tlvs)
    requires n <= |tlvs| && (forall i :: 0 <= i < n ==> tlvs[i] == NoError) && (n < |tlvs| ==> tlvs[n] != NoError)
    ensures var s, t := states[k], states[k + 1];
            var result :=
              if error != NoError then error else if n == |tlvs| || tlvs[n] == NotFound then NoError else tlvs[n];
            t.answers == s.answers + [Answer(Some(line), result)] && t.output == s.output + [Done(result)]
  {
    EndingIs(tlvs, n);
    hide Ending;
  }

  lemma {:induction false} EndingIs(tlvs: seq<Error>, n: nat)
    requires n <= |tlvs| && (forall i :: 0 <= i < n ==> tlvs[i] == NoError) && (n < |tlvs| ==> tlvs[n] != NoError)
    ensures Ending(tlvs) == if n < |tlvs| then tlvs[n] else NotFound
  {
    if n > 0 {
      assert forall i :: 0 <= i < n - 1 ==> tlvs[1..][i] == tlvs[i + 1];
      EndingIs(tlvs[1..], n - 1);
    }
  }

  /** The line reaches the handler of a built-in command. */
  predicate Reaches(table: seq<string>, text: string, env: Environment) {
    var args := Arguments(text);
    && |text| < MAX_LINE && 1 <= |args| <= MAX_ARGS && args[0] in table
    && (env.diagMode ==> args[0] == "diag")
  }

  /**
   * Of every run: a line that denotes a call with a callback waits for it if the stack accepts the call, and
   * prints the error of the stack otherwise.
   */
  lemma CallIsRecorded(table: seq<string>, states: seq<State>, events: seq<Event>, k: nat, text: string,
                       env: Environment, call: Call)
    requires IsRun(table, states, events) && k < |events| && events[k] == Line(text, env) && Reaches(table, text, env)
    requires var args := Arguments(text);
             Denotes(args[0], args[1..], states[k].sntpBusy, env.discovery, call) && call.HasCallback()
    ensures var s, t := states[k], states[k + 1];
            if env.stackError != NoError then
              && t.answers == s.answers + [Answer(Some(s.lines), env.stackError)]
              && t.outstanding == s.outstanding && t.diagnostics == s.diagnostics
            else
              && t.answers == s.answers
              && t.outstanding == (if call.DiagnosticGet? then s.outstanding else s.outstanding[s.lines := call])
              && t.diagnostics == (if call.DiagnosticGet? then s.diagnostics[s.lines := 0] else s.diagnostics)
  {
    var s, args := states[k], Arguments(text);
    hide Arguments, HandlerError, HelpFor, CallOf, Denotes;
    assert states[k + 1] == Handled(table, s, args[0], args[1..], env);
    CallOfIsCall(args[0], args[1..], s.sntpBusy, env.discovery);
    PendingIffAccepted(args[0], args[1..], s.sntpBusy, env, Some(call));
    assert s.answers + [] == s.answers;
  }

  /** Event `i` is line number `line`, it denotes `call`, and the stack accepts the call. */
  ghost predicate Starts(states: seq<State>, events: seq<Event>, i: nat, line: nat, call: Call)
    requires i < |events| < |states|
  {
    && events[i].Line? && states[i].lines == line && events[i].env.stackError == NoError && call.HasCallback()
    && var args := Arguments(events[i].text);
       args != [] && Denotes(args[0], args[1..], states[i].sntpBusy, events[i].env.discovery, call)
  }

  /** Of every run: whatever the stack has still to report on is what an earlier line denotes, under its number. */
  lemma {:induction false} OutstandingIsDenoted(table: seq<string>, states: seq<State>, events: seq<Event>, k: nat,
                                                line: nat)
    requires IsRun(table, states, events) && k < |states| && line in states[k].outstanding
    ensures exists i: nat :: i < k && Starts(states, events, i, line, states[k].outstanding[line])
  {
    assert k > 0;
    var s, t, e := states[k - 1], states[k], events[k - 1];
    RunsKeepInvariant(table, states, events, k - 1);
    NewCall(table, s, e, line);
    if line in s.outstanding {
      OutstandingIsDenoted(table, states, events, k - 1, line);
      hide Starts;
      var i: nat :| i < k - 1 && Starts(states, events, i, line, s.outstanding[line]);
      assert Starts(states, events, i, line, t.outstanding[line]);
    } else {
      assert Starts(states, events, k - 1, line, t.outstanding[line]);
    }
  }

  /** A step keeps the calls outstanding before it, and adds at most the call that the line denotes. */
  lemma NewCall(table: seq<string>, s: State, e: Event, line: nat)
    requires Allowed(s, e) && line in Step(table, s, e).outstanding
    requires forall other :: other in s.outstanding ==> other < s.lines
    ensures line in s.outstanding ==> Step(table, s, e).outstanding[line] == s.outstanding[line]
    ensures line !in s.outstanding ==>
        && e.Line? && line == s.lines && Arguments(e.text) != [] && e.env.stackError == NoError
        && var args, call := Arguments(e.text), Step(table, s, e).outstanding[line];
           call.HasCallback() && Denotes(args[0], args[1..], s.sntpBusy, e.env.discovery, call)
  {
    hide Arguments, HandlerError, HelpFor, ResultLines, Answers, Denotes;
  }

  /** Of every run: while one SNTP query is outstanding, another one is answered with "Busy" and not sent. */
  lemma SecondQueryIsBusy(table: seq<string>, states: seq<State>, events: seq<Event>, k: nat, text: string,
                          env: Environment, line: nat)
    requires IsRun(table, states, events) && k < |events| && events[k] == Line(text, env) && Reaches(table, text, env)
    requires var args := Arguments(text); |args| > 1 && args[0] == "sntp" && args[1] == "query"
    requires IsQuery(states[k].outstanding, line)
    ensures states[k + 1].answers == states[k].answers + [Answer(Some(states[k].lines), Busy)]
    ensures states[k + 1].outstanding == states[k].outstanding
  {
    var s, args := states[k], Arguments(text);
    RunsKeepInvariant(table, states, events, k);
    CallOfIsCall(args[0], args[1..], s.sntpBusy, env.discovery);
    hide Arguments, CallOf, Count, Printed, Errors, Due;
    assert states[k + 1] == Handled(table, s, args[0], args[1..], env);
  }

  // ---------- Dispatch ----------

  /** Outside diagnostics mode the words that are not rejected are exactly those that `help` lists. */
  lemma KnownWordsAreHelped(table: seq<string>, users: seq<string>, name: string)
    ensures Dispatch(table, users, name) != Unknown <==> Name(name) in HelpText(table, users)
  {
    var text := HelpText(table, users);
    var i, j := FirstIndex(table, name), FirstIndex(users, name);
    if i < |table| {
      assert text[i] == Name(name);
    } else if j < |users| {
      assert text[|table| + j] == Name(name);
    } else {
      forall k | 0 <= k < |text| ensures text[k] != Name(name) {
      }
    }
  }

  /** A built-in command shadows user commands, and the first user command of a name wins. */
  lemma DispatchOrder(table: seq<string>, users: seq<string>, name: string)
    ensures Dispatch(table, users, name).Builtin? <==> name in table
    ensures Dispatch(table, users, name).User? <==> name !in table && name in users
    ensures var target := Dispatch(table, users, name);
            target.User? ==> users[target.index] == name && name !in users[..target.index]
  {
  }

  /** In diagnostics mode a line whose first word is not `diag` prints a notice at most and does nothing else. */
  lemma DiagModeBlocks(table: seq<string>, s: State, text: string, env: Environment)
    requires env.diagMode && (Arguments(text) == [] || Arguments(text)[0] != "diag")
    ensures LineStep(table, s, text, env).(output := s.output) == s
    ensures var output := LineStep(table, s, text, env).output;
            output == s.output || output == s.output + [DiagModeNotice] || output == s.output + [TooManyArgs]
    ensures 1 <= |Arguments(text)| <= MAX_ARGS && |text| < MAX_LINE ==>
        LineStep(table, s, text, env).output == s.output + [DiagModeNotice]
  {
    hide Arguments, Dispatched;
  }

  /** A line that comes in diagnostics mode and does not start with `diag`. */
  predicate IsBlocked(e: Event) {
    e.Line? && e.env.diagMode && (Arguments(e.text) == [] || Arguments(e.text)[0] != "diag")
  }

  lemma BlockedStep(table: seq<string>, s: State, e: Event)
    requires IsBlocked(e) && Allowed(s, e)
    ensures Step(table, s, e).(output := s.output) == s
    ensures Printed(Step(table, s, e).output) == Printed(s.output)
  {
    PrintOther(s.output, [DiagModeNotice]);
    PrintOther(s.output, [TooManyArgs]);
    DiagModeBlocks(table, s, e.text, e.env);
    hide Arguments, LineStep, Printed;
  }

  /** Of every run: blocked lines leave everything but the output as it was, and print no result. */
  lemma {:induction false} DiagModeRun(table: seq<string>, states: seq<State>, events: seq<Event>, i: nat, j: nat)
    requires IsRun(table, states, events) && i <= j < |states|
    requires forall k :: i <= k < j ==> IsBlocked(events[k])
    ensures states[j].(output := states[i].output) == states[i]
    ensures Printed(states[j].output) == Printed(states[i].output)
    decreases j
  {
    hide IsBlocked, Step, Allowed, Printed;
    if i < j {
      DiagModeRun(table, states, events, i, j - 1);
      BlockedStep(table, states[j - 1], events[j - 1]);
    }
  }

  /** From text to action: a line that spells a list of words acts on exactly those words. */
  lemma SpelledLineIsDispatched(table: seq<string>, s: State, gaps: seq<string>, words: seq<string>, env: Environment)
    requires |gaps| == |words| + 1 && 1 <= |words| <= MAX_ARGS
    requires forall k :: 0 <= k < |gaps| ==> IsGap(gaps[k])
    requires forall k :: 0 < k < |words| ==> gaps[k] != ""
    requires forall k :: 0 <= k < |words| ==> words[k] != ""
    requires |Spell(gaps, words)| < MAX_LINE && (env.diagMode ==> words[0] == "diag")
    ensures LineStep(table, s, Spell(gaps, words), env) == Dispatched(table, s, words, env)
  {
    hide Dispatched, Spell, Arguments;
    ArgumentsOfSpelling(gaps, words);
  }
}
