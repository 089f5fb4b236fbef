/** The arguments of `linkmetrics mgmt`: forward tracking series and enhanced-ACK probing. */
module LinkMetricsArguments {
  import opened Base
  import opened Numbers
  import opened Ip6Text
  import opened Ip6Laws
  import CommandLine

  datatype SeriesFlag = LinkProbe | MacData | MacDataRequest | MacAck

  datatype Metric = PduCount | Lqi | LinkMargin | Rssi

  datatype Request =
    | Forward(address: Address, seriesId: Byte, flags: set<SeriesFlag>, metrics: Option<set<Metric>>)
    | EnhAckClear(address: Address)
    | EnhAckRegister(address: Address, registered: set<Metric>, reserved: bool)

  function SeriesFlagOf(c: char): Option<SeriesFlag> {
    match c
    case 'l' => Some(LinkProbe)
    case 'd' => Some(MacData)
    case 'r' => Some(MacDataRequest)
    case 'a' => Some(MacAck)
    case _ => None
  }

  function MetricOf(c: char): Option<Metric> {
    match c
    case 'p' => Some(PduCount)
    case 'q' => Some(Lqi)
    case 'm' => Some(LinkMargin)
    case 'r' => Some(Rssi)
    case _ => None
  }

  // ---------- Declarative meaning ----------

  /** Every character names a flag, and the flags are exactly those named. */
  ghost predicate Names<T(!new)>(text: string, flagOf: char -> Option<T>, flags: set<T>) {
    && (forall k :: 0 <= k < |text| ==> flagOf(text[k]).Some? && flagOf(text[k]).value in flags)
    && (forall f :: f in flags ==> exists k :: 0 <= k < |text| && flagOf(text[k]) == Some(f))
  }

  ghost predicate Denotes(args: seq<string>, referenceDevice: bool, r: Request) {
    && |args| >= 2
    && AddressArgument(args[0]) == Ok(r.address)
    && match r
       case Forward(_, seriesId, flags, metrics) =>
         && args[1] == "forward" && |args| >= 4
         && ParseUint(args[2], UINT8_MAX) == Ok(seriesId)
         && (match metrics
             case None => |args| == 4 && args[3] == "X" && flags == {}
             case Some(ms) => |args| == 5 && Names(args[3], SeriesFlagOf, flags) && Names(args[4], MetricOf, ms))
       case EnhAckClear(_) =>
         args[1] == "enhanced-ack" && |args| >= 3 && args[2] == "clear"
       case EnhAckRegister(_, registered, reserved) =>
         && args[1] == "enhanced-ack" && |args| >= 4 && args[2] == "register"
         && Names(args[3], MetricOf, registered)
         && reserved == (referenceDevice && |args| > 4 && args[4] == "r")
  }

  predicate AllLetters<T(!new)>(text: string, flagOf: char -> Option<T>) {
    forall k :: 0 <= k < |text| ==> flagOf(text[k]).Some?
  }

  /** Arguments that are dropped without an error: checks that leave the error of the step before, which is none. */
  predicate SilentlyDropped(args: seq<string>) {
    && |args| >= 2 && AddressArgument(args[0]).Ok?
    && if args[1] == "forward" then
         || |args| < 4
         || (&& ParseUint(args[2], UINT8_MAX).Ok?
             && AllLetters(args[3], SeriesFlagOf) && |args| != 5)
       else if args[1] == "enhanced-ack" then
         || |args| < 3
         || (args[2] != "clear" && (args[2] == "register" ==> |args| < 4))
       else
         true
  }

  // ---------- The commands ----------

  lemma NamesSnoc<T(!new)>(text: string, k: nat, flagOf: char -> Option<T>, flags: set<T>)
    requires k < |text| && Names(text[..k], flagOf, flags) && flagOf(text[k]).Some?
    ensures Names(text[..k + 1], flagOf, flags + {flagOf(text[k]).value})
  {
    var init, more := text[..k], text[..k + 1];
    assert more == init + [text[k]];
    forall f | f in flags + {flagOf(text[k]).value} ensures exists j :: 0 <= j < |more| && flagOf(more[j]) == Some(f) {
      if f in flags {
        var j :| 0 <= j < |init| && flagOf(init[j]) == Some(f);
        assert more[j] == init[j];
      } else {
        assert flagOf(more[k]) == Some(f);
      }
    }
  }

  lemma NamesUnique<T(!new)>(text: string, flagOf: char -> Option<T>, a: set<T>, b: set<T>)
    requires Names(text, flagOf, a) && Names(text, flagOf, b)
    ensures a == b
  {
  }

  /** The letters and their meaning as documented: the number of PDUs, the LQI, the link margin and the RSSI. */
  predicate MetricLetters(text: string, metrics: set<Metric>) {
    && (PduCount in metrics <==> 'p' in text) && (Lqi in metrics <==> 'q' in text)
    && (LinkMargin in metrics <==> 'm' in text) && (Rssi in metrics <==> 'r' in text)
  }

  /** The same for the frames to account: link probes, MAC data, MAC data requests and MAC acknowledgments. */
  predicate SeriesLetters(text: string, flags: set<SeriesFlag>) {
    && (LinkProbe in flags <==> 'l' in text) && (MacData in flags <==> 'd' in text)
    && (MacDataRequest in flags <==> 'r' in text) && (MacAck in flags <==> 'a' in text)
  }

  lemma MetricsAsDocumented(text: string, metrics: set<Metric>)
    ensures Names(text, MetricOf, metrics) <==> (forall c :: c in text ==> c in "pqmr") && MetricLetters(text, metrics)
    ensures AllLetters(text, MetricOf) <==> forall c :: c in text ==> c in "pqmr"
  {
    assert forall c :: c in "pqmr" <==> c == 'p' || c == 'q' || c == 'm' || c == 'r';
    assert forall c :: MetricOf(c).Some? <==> c in "pqmr";
    assert forall c :: MetricOf(c) == Some(PduCount) <==> c == 'p';
    assert forall c :: MetricOf(c) == Some(Lqi) <==> c == 'q';
    assert forall c :: MetricOf(c) == Some(LinkMargin) <==> c == 'm';
    assert forall c :: MetricOf(c) == Some(Rssi) <==> c == 'r';
    hide MetricOf;
    InText(text);
    if (forall c :: c in text ==> c in "pqmr") && MetricLetters(text, metrics) {
      forall f | f in metrics ensures exists k :: 0 <= k < |text| && MetricOf(text[k]) == Some(f) {
        var c := match f case PduCount => 'p' case Lqi => 'q' case LinkMargin => 'm' case Rssi => 'r';
        assert c in text;
      }
    }
  }

  lemma InText(text: string)
    ensures forall k :: 0 <= k < |text| ==> text[k] in text
  {
  }

  lemma SeriesFlagsAsDocumented(text: string, flags: set<SeriesFlag>)
    ensures Names(text, SeriesFlagOf, flags) <==> (forall c :: c in text ==> c in "ldra") && SeriesLetters(text, flags)
    ensures AllLetters(text, SeriesFlagOf) <==> forall c :: c in text ==> c in "ldra"
  {
    assert forall c :: c in "ldra" <==> c == 'l' || c == 'd' || c == 'r' || c == 'a';
    assert forall c :: SeriesFlagOf(c).Some? <==> c in "ldra";
    assert forall c :: SeriesFlagOf(c) == Some(LinkProbe) <==> c == 'l';
    assert forall c :: SeriesFlagOf(c) == Some(MacData) <==> c == 'd';
    assert forall c :: SeriesFlagOf(c) == Some(MacDataRequest) <==> c == 'r';
    assert forall c :: SeriesFlagOf(c) == Some(MacAck) <==> c == 'a';
    hide SeriesFlagOf;
    InText(text);
    if (forall c :: c in text ==> c in "ldra") && SeriesLetters(text, flags) {
      forall f | f in flags ensures exists k :: 0 <= k < |text| && SeriesFlagOf(text[k]) == Some(f) {
        var c := match f case LinkProbe => 'l' case MacData => 'd' case MacDataRequest => 'r' case MacAck => 'a';
        assert c in text;
      }
    }
  }

  method ParseLinkMetricsFlags(text: string) returns (r: Result<set<Metric>>)
    ensures r.Ok? ==> Names(text, MetricOf, r.value)
    ensures r.Err? ==> r.error == InvalidArgs && !AllLetters(text, MetricOf)
    ensures r.Ok? <==> forall c :: c in text ==> c in "pqmr"
    ensures r.Ok? ==> MetricLetters(text, r.value)
  {
    MetricsAsDocumented(text, {});
    var metrics: set<Metric> := {};
    for k := 0 to |text|
      invariant Names(text[..k], MetricOf, metrics)
    {
      var metric := MetricOf(text[k]);
      if metric.None? {
        return Err(InvalidArgs);
      }
      NamesSnoc(text, k, MetricOf, metrics);
      metrics := metrics + {metric.value};
    }
    assert text[..|text|] == text;
    MetricsAsDocumented(text, metrics);
    r := Ok(metrics);
  }

  /** The loop over the series flags; `alone` says that no argument follows them. */
  method ParseSeriesFlags(text: string, alone: bool) returns (error: Error, flags: set<SeriesFlag>, clear: bool)
    ensures error == NoError <==> AllLetters(text, SeriesFlagOf) || (text == "X" && alone)
    ensures error == NoError || error == InvalidArgs
    ensures error == NoError ==> (clear <==> text == "X")
    ensures error == NoError && clear ==> alone && flags == {}
    ensures error == NoError && !clear ==> Names(text, SeriesFlagOf, flags) && SeriesLetters(text, flags)
  {
    flags, clear := {}, false;
    for k := 0 to |text|
      invariant clear ==> text == "X" && alone && k == 1 && flags == {}
      invariant !clear ==> Names(text[..k], SeriesFlagOf, flags) && (k > 0 ==> text != "X")
    {
      if text[k] == 'X' {
        if !(k == 0 && k + 1 == |text| && alone) {
          return InvalidArgs, flags, clear;
        }
        clear := true;
      } else {
        var flag := SeriesFlagOf(text[k]);
        if flag.None? {
          return InvalidArgs, flags, clear;
        }
        NamesSnoc(text, k, SeriesFlagOf, flags);
        flags := flags + {flag.value};
      }
    }
    assert text[..|text|] == text;
    SeriesFlagsAsDocumented(text, flags);
    error := NoError;
  }

  /** `sent` is the request passed to the stack, if one is, and `stackError` what the stack returns. */
  method ProcessLinkMetricsMgmt(args: seq<string>, referenceDevice: bool, stackError: Error)
    returns (error: Error, sent: Option<Request>)
    ensures sent.Some? ==> Denotes(args, referenceDevice, sent.value) && error == stackError
    ensures sent.None? ==> forall r :: !Denotes(args, referenceDevice, r)
    ensures sent.None? ==> (error == NoError <==> SilentlyDropped(args))
  {
    sent := None;
    if |args| < 2 {
      return InvalidArgs, None;
    }
    var address := AddressArgument(args[0]);
    if address.Err? {
      return address.error, None;
    }
    if args[1] == "forward" {
      error, sent := ProcessForward(args, address.value, referenceDevice, stackError);
    } else if args[1] == "enhanced-ack" {
      error, sent := ProcessEnhancedAck(args, address.value, referenceDevice, stackError);
    } else {
      error := NoError;
    }
  }

  method ProcessForward(args: seq<string>, address: Address, referenceDevice: bool, stackError: Error)
    returns (error: Error, sent: Option<Request>)
    requires |args| >= 2 && AddressArgument(args[0]) == Ok(address) && args[1] == "forward"
    ensures sent.Some? ==> Denotes(args, referenceDevice, sent.value) && error == stackError
    ensures sent.None? ==> forall r :: !Denotes(args, referenceDevice, r)
    ensures sent.None? ==> (error == NoError <==> SilentlyDropped(args))
  {
    hide AddressArgument, ParseUint, SeriesFlagOf, MetricOf;
    if !(|args| >= 4) {
      return NoError, None;
    }
    var seriesId := ParseUint(args[2], UINT8_MAX);
    if seriesId.Err? {
      return seriesId.error, None;
    }
    NotX();
    var flagError, flags, clear := ParseSeriesFlags(args[3], |args| == 4);
    if flagError != NoError {
      return flagError, None;
    }
    var linkMetrics: Option<set<Metric>> := None;
    if !clear {
      if !(|args| == 5) {
        return NoError, None;
      }
      var metrics := ParseLinkMetricsFlags(args[4]);
      if metrics.Err? {
        return metrics.error, None;
      }
      linkMetrics := Some(metrics.value);
    }
    sent := Some(Forward(address, seriesId.value, flags, linkMetrics));
    error := stackError;
  }

  lemma NotX()
    ensures SeriesFlagOf('X').None?
  {
  }

  method ProcessEnhancedAck(args: seq<string>, address: Address, referenceDevice: bool, stackError: Error)
    returns (error: Error, sent: Option<Request>)
    requires |args| >= 2 && AddressArgument(args[0]) == Ok(address) && args[1] == "enhanced-ack"
    ensures sent.Some? ==> Denotes(args, referenceDevice, sent.value) && error == stackError
    ensures sent.None? ==> forall r :: !Denotes(args, referenceDevice, r)
    ensures sent.None? ==> (error == NoError <==> SilentlyDropped(args))
  {
    hide AddressArgument, ParseUint, SeriesFlagOf, MetricOf;
    if !(|args| >= 3) {
      return NoError, None;
    }
    if args[2] == "clear" {
      sent := Some(EnhAckClear(address));
    } else if args[2] == "register" {
      if !(|args| >= 4) {
        return NoError, None;
      }
      var metrics := ParseLinkMetricsFlags(args[3]);
      if metrics.Err? {
        return metrics.error, None;
      }
      sent := Some(EnhAckRegister(address, metrics.value, referenceDevice && |args| > 4 && args[4] == "r"));
    } else {
      return NoError, None;
    }
    error := stackError;
  }

  // ---------- Laws ----------

  /** At most one request is denoted. */
  lemma RequestUnique(args: seq<string>, referenceDevice: bool, r: Request, q: Request)
    requires Denotes(args, referenceDevice, r) && Denotes(args, referenceDevice, q)
    ensures r == q
  {
    match r
    case Forward(_, _, flags, metrics) =>
      if metrics.Some? {
        NamesUnique(args[3], SeriesFlagOf, flags, q.flags);
        NamesUnique(args[4], MetricOf, metrics.value, q.metrics.value);
      }
    case EnhAckClear(_) =>
    case EnhAckRegister(_, registered, _) =>
      NamesUnique(args[3], MetricOf, registered, q.registered);
  }

  /** Every request can be typed, in the documented order of arguments. */
  lemma RequestsCanBeTyped(a: Address, seriesId: Byte, letters: string, flags: set<SeriesFlag>, types: string,
                           metrics: set<Metric>, referenceDevice: bool)
    requires (forall c :: c in letters ==> c in "ldra") && SeriesLetters(letters, flags)
    requires (forall c :: c in types ==> c in "pqmr") && MetricLetters(types, metrics)
    ensures var peer, id := AddressText(a), Text(seriesId, Decimal);
            && Denotes([peer, "forward", id, letters, types], referenceDevice,
                       Forward(a, seriesId, flags, Some(metrics)))
            && Denotes([peer, "forward", id, "X"], referenceDevice, Forward(a, seriesId, {}, None))
            && Denotes([peer, "enhanced-ack", "clear"], referenceDevice, EnhAckClear(a))
            && Denotes([peer, "enhanced-ack", "register", types], referenceDevice, EnhAckRegister(a, metrics, false))
            && Denotes([peer, "enhanced-ack", "register", types, "r"], true, EnhAckRegister(a, metrics, true))
  {
    ParsePrinted(a);
    NumberOfText(seriesId);
    SeriesFlagsAsDocumented(letters, flags);
    MetricsAsDocumented(types, metrics);
    hide AddressText, Text, Number, ParseAddress, Names, SeriesFlagOf, MetricOf, SeriesLetters, MetricLetters;
  }

  /**
   * The stack requires null metrics when no series flag is set. For a forward tracking request with a
   * non-empty flags argument, null metrics, no flags, and the single letter X mean the same.
   */
  lemma NullMetricsIffNoFlags(args: seq<string>, referenceDevice: bool, r: Request)
    requires Denotes(args, referenceDevice, r) && r.Forward? && args[3] != ""
    ensures r.metrics.None? <==> r.flags == {}
    ensures r.metrics.None? <==> args[3] == "X" && |args| == 4
    ensures r.metrics.Some? ==> |args| == 5
  {
    if r.metrics.Some? {
      assert SeriesFlagOf(args[3][0]).value in r.flags;
    }
  }

  /** Arguments that come from a command line are never empty, so the condition always holds there. */
  lemma NullMetricsOnCommandLine(line: string, referenceDevice: bool, r: Request)
    requires |CommandLine.Arguments(line)| >= 2
    requires Denotes(CommandLine.Arguments(line)[2..], referenceDevice, r) && r.Forward?
    ensures r.metrics.None? <==> r.flags == {}
  {
    var args := CommandLine.Arguments(line);
    CommandLine.WordsNonEmpty(CommandLine.Lex(line), 5);
    NullMetricsIffNoFlags(args[2..], referenceDevice, r);
  }

  /** "Done" for `linkmetrics mgmt <address> forward`, although nothing is sent. */
  lemma ForwardWithoutFlagsDropped(a: Address, referenceDevice: bool, r: Request)
    ensures SilentlyDropped([AddressText(a), "forward"])
    ensures !Denotes([AddressText(a), "forward"], referenceDevice, r)
  {
    ParsePrinted(a);
  }
}
