/** Interpreting the output of a built-in audit tool, and the evidence record built from it. */
module AdapterProfiles {
  import opened Prelude
  import opened JsonValue
  import opened ProfileCounts
  import opened BoundedStreams

  // ----- interpretation -----

  datatype Status = Clean | Findings | Partial | Unavailable
  datatype Reason =
    | CleanScan | FindingsFound | ExecutableUnavailable | InvalidOutput | InvalidReturncode | DatabaseInvalid
    | DatabaseUnavailable | NoScannedTargets | OutputTruncated | ScanErrors | TimedOut | VersionUnavailable

  datatype Outcome = Outcome(status: Status, reason: Reason, findings: nat, scanned: nat)
  datatype Interpretation = Interpreted(outcome: Outcome) | Raised

  /** What a tool leaves behind: the strict JSON of its standard output, if any, and whether
      its error stream is blank. */
  datatype Response = Response(document: Option<Json>, errorsBlank: bool, returncode: int, timedOut: bool,
      truncated: bool)

  function CountsOf(parser: Parser, r: Response): (Counts, bool) {
    if r.document.None? then (Invalid, false)
    else
      match parser
      case Semgrep => SemgrepSpec(r.document.value)
      case Osv => (OsvSpec(r.document.value), !r.errorsBlank)
      case Trivy => (TrivySpec(r.document.value), false)
  }

  /** The tail of `interpret_profile_output`, once the counts are known. */
  function Classify(counts: Counts, errors: bool, returncode: int): Interpretation {
    match counts
    case Invalid => Interpreted(Outcome(Partial, InvalidOutput, 0, 0))
    case TypeFault => Raised
    case Counts(findings, scanned) =>
      if errors then Interpreted(Outcome(Partial, ScanErrors, findings, scanned))
      else if scanned == 0 then Interpreted(Outcome(Partial, NoScannedTargets, findings, 0))
      else if returncode !in {0, 1} || returncode != (if findings > 0 then 1 else 0)
      then Interpreted(Outcome(Partial, InvalidReturncode, findings, scanned))
      else if findings > 0 then Interpreted(Outcome(Findings, FindingsFound, findings, scanned))
      else Interpreted(Outcome(Clean, CleanScan, 0, scanned))
  }

  function Interpret(parser: Parser, r: Response): Interpretation {
    if r.timedOut then Interpreted(Outcome(Partial, TimedOut, 0, 0))
    else if r.truncated then Interpreted(Outcome(Partial, OutputTruncated, 0, 0))
    else
      var (counts, errors) := CountsOf(parser, r);
      Classify(counts, errors, r.returncode)
  }

  // ----- what the outcome says of the output -----

  /** The output parsed, and the document has the shape its tool promises. */
  ghost predicate Counted(parser: Parser, r: Response) {
    && r.document.Some?
    && match parser
       case Semgrep => SemgrepShaped(r.document.value)
       case Osv => OsvShaped(r.document.value)
       case Trivy => TrivyShaped(r.document.value)
  }

  function FindingCount(parser: Parser, document: Json): nat {
    match parser
    case Semgrep => |Entries(document, "results")|
    case Osv => |OsvFindings(document)|
    case Trivy => |TrivyFindings(document)|
  }

  function TargetCount(parser: Parser, document: Json): nat {
    match parser
    case Semgrep => |Entries(At(document, "paths"), "scanned")|
    case Osv => |OsvPaths(document)|
    case Trivy => |Entries(document, "Results")|
  }

  /** The tool reports that it could not scan everything. */
  predicate ErrorsReported(parser: Parser, r: Response)
    requires r.document.Some?
  {
    match parser
    case Semgrep => |Entries(r.document.value, "errors")| > 0
    case Osv => !r.errorsBlank
    case Trivy => false
  }

  lemma CountsExact(parser: Parser, r: Response)
    ensures CountsOf(parser, r).0.Counts? <==> Counted(parser, r)
    ensures Counted(parser, r) ==>
              CountsOf(parser, r) == (Counts(FindingCount(parser, r.document.value),
                                             TargetCount(parser, r.document.value)), ErrorsReported(parser, r))
  {
    hide SemgrepSpec, SemgrepShaped, OsvSpec, OsvShaped, TrivySpec, TrivyShaped;
    if r.document.Some? {
      SemgrepExact(r.document.value);
      OsvExact(r.document.value);
      TrivyExact(r.document.value);
    }
  }

  ghost predicate Unflagged(r: Response) {
    !r.timedOut && !r.truncated
  }

  /** When each reason is given, and what is counted. */
  ghost predicate Explained(parser: Parser, r: Response, o: Outcome) {
    var counted := Unflagged(r) && Counted(parser, r);
    var n := if counted then FindingCount(parser, r.document.value) else 0;
    var targets := if counted then TargetCount(parser, r.document.value) else 0;
    var errors := counted && ErrorsReported(parser, r);
    var expected := if n > 0 then 1 else 0;
    && o.findings == n && o.scanned == targets
    && (o.reason.TimedOut? <==> r.timedOut)
    && (o.reason.OutputTruncated? <==> r.truncated && !r.timedOut)
    && (o.reason.InvalidOutput? <==> Unflagged(r) && !counted)
    && (o.reason.ScanErrors? <==> errors)
    && (o.reason.NoScannedTargets? <==> counted && !errors && targets == 0)
    && (o.reason.InvalidReturncode? <==> counted && !errors && targets > 0 && r.returncode != expected)
    && (o.status.Clean? <==> o.reason.CleanScan?)
    && (o.status.Findings? <==> o.reason.FindingsFound?)
    && (o.reason.CleanScan? <==> counted && !errors && targets > 0 && n == 0 && r.returncode == 0)
    && (o.reason.FindingsFound? <==> counted && !errors && targets > 0 && n > 0 && r.returncode == 1)
  }

  lemma OutcomeExact(parser: Parser, r: Response)
    requires Interpret(parser, r).Interpreted?
    ensures Explained(parser, r, Interpret(parser, r).outcome)
  {
    hide Counted, CountsOf, FindingCount, TargetCount, ErrorsReported;
    CountsExact(parser, r);
  }

  // ----- the evidence relations -----

  predicate ReasonFits(status: Status, reason: Reason) {
    match status
    case Clean => reason.CleanScan?
    case Findings => reason.FindingsFound?
    case Partial => reason in {InvalidOutput, InvalidReturncode, NoScannedTargets, OutputTruncated, ScanErrors,
      TimedOut}
    case Unavailable => reason in {DatabaseInvalid, DatabaseUnavailable, ExecutableUnavailable, VersionUnavailable}
  }

  /** The relations that `AdapterProfileEvidence._from_fields` demands. */
  predicate EvidenceRelations(parser: Parser, o: Outcome, toolVersion: string) {
    && ReasonFits(o.status, o.reason)
    && (o.status.Clean? ==> o.findings == 0)
    && (o.status.Findings? ==> o.findings > 0)
    && (o.status in {Clean, Findings} ==> o.scanned > 0)
    && (o.status.Unavailable? <==> toolVersion == "")
    && (o.status.Unavailable? ==> o.findings == 0 && o.scanned == 0)
    && (o.reason in {InvalidOutput, OutputTruncated, TimedOut} ==> o.findings == 0 && o.scanned == 0)
    && (o.reason.NoScannedTargets? ==> o.scanned == 0)
    && (o.reason.InvalidReturncode? ==> o.scanned > 0)
    && (o.reason.ScanErrors? ==> parser in {Osv, Semgrep})
    && (o.reason in {DatabaseInvalid, DatabaseUnavailable} ==> parser.Osv?)
  }

  /** The relations that `AdapterResult._validate_profile_relation` demands of the execution
      around the evidence; the output digests are the same value on both sides. */
  predicate ExecutionRelations(o: Outcome, returncode: int, outputBytes: nat, truncated: bool, timedOut: bool) {
    if o.status.Unavailable? then returncode == 126 && outputBytes == 0 && !truncated && !timedOut
    else if o.reason.TimedOut? then returncode == 124 && timedOut && !truncated
    else if o.reason.OutputTruncated? then returncode == 125 && truncated && !timedOut
    else
      && !timedOut && !truncated
      && (o.reason.InvalidReturncode? ==> returncode != if o.findings > 0 then 1 else 0)
      && (o.status.Clean? ==> returncode == 0)
      && (o.status.Findings? ==> returncode == 1)
  }

  /** The same relations, reason by reason. */
  lemma EvidenceByReason(parser: Parser, o: Outcome, toolVersion: string)
    ensures EvidenceRelations(parser, o, toolVersion) <==>
            match o.reason
            case CleanScan => o.status == Clean && o.findings == 0 && o.scanned >= 1 && |toolVersion| >= 1
            case FindingsFound => o.status == Findings && o.findings >= 1 && o.scanned >= 1 && |toolVersion| >= 1
            case TimedOut | OutputTruncated | InvalidOutput =>
              o == Outcome(Partial, o.reason, 0, 0) && |toolVersion| >= 1
            case NoScannedTargets => o == Outcome(Partial, NoScannedTargets, o.findings, 0) && |toolVersion| >= 1
            case InvalidReturncode => o.status == Partial && o.scanned >= 1 && |toolVersion| >= 1
            case ScanErrors => o.status == Partial && parser != Trivy && |toolVersion| >= 1
            case DatabaseInvalid | DatabaseUnavailable =>
              o == Outcome(Unavailable, o.reason, 0, 0) && parser == Osv && toolVersion == []
            case ExecutableUnavailable | VersionUnavailable =>
              o == Outcome(Unavailable, o.reason, 0, 0) && toolVersion == []
  {
  }

  /** And the execution that fits evidence of each reason. */
  lemma ExecutionByReason(o: Outcome, returncode: int, outputBytes: nat, truncated: bool, timedOut: bool)
    requires ReasonFits(o.status, o.reason)
    ensures ExecutionRelations(o, returncode, outputBytes, truncated, timedOut) <==>
            match o.reason
            case TimedOut => (returncode, truncated, timedOut) == (124, false, true)
            case OutputTruncated => (returncode, truncated, timedOut) == (125, true, false)
            case CleanScan => (returncode, truncated, timedOut) == (0, false, false)
            case FindingsFound => (returncode, truncated, timedOut) == (1, false, false)
            case InvalidReturncode =>
              !truncated && !timedOut && (if o.findings == 0 then returncode != 0 else returncode != 1)
            case InvalidOutput | NoScannedTargets | ScanErrors => !truncated && !timedOut
            case _ => (returncode, outputBytes, truncated, timedOut) == (126, 0, false, false)
  {
  }

  /** Every outcome makes a valid evidence record, whatever the tool printed. */
  lemma OutcomeIsEvidence(parser: Parser, r: Response, toolVersion: string)
    requires Interpret(parser, r).Interpreted? && toolVersion != ""
    ensures EvidenceRelations(parser, Interpret(parser, r).outcome, toolVersion)
  {
    hide TrivySpec, OsvSpec, SemgrepSpec;
  }

  /** The execution relations hold of an interpreted run exactly when the two flags are not
      both set. */
  lemma ExecutionExact(parser: Parser, r: Response, outputBytes: nat)
    requires Interpret(parser, r).Interpreted?
    requires FlagsExplainCode(r)
    ensures ExecutionRelations(Interpret(parser, r).outcome, r.returncode, outputBytes, r.truncated, r.timedOut) <==>
            !(r.timedOut && r.truncated)
  {
    hide TrivySpec, OsvSpec, SemgrepSpec;
  }

  predicate Fits(o: Outcome, output: ProcessOutput) {
    ExecutionRelations(o, output.returncode, output.outputBytes, output.truncated, output.timedOut)
  }

  /** What `AdapterResult.from_dict` demands of the execution fields: the relations, and a return
      code that is not negative. */
  predicate Readable(o: Outcome, output: ProcessOutput) {
    output.returncode >= 0 && Fits(o, output)
  }

  /** The return codes a flagged run reports. */
  predicate FlagsExplainCode(r: Response) {
    (r.timedOut ==> r.returncode == 124) && (r.truncated && !r.timedOut ==> r.returncode == 125)
  }

  /** Evidence that satisfies both relations never passes, or counts as complete, where the
      bare execution would not. */
  lemma PassedIsPlain(parser: Parser, o: Outcome, toolVersion: string, returncode: int, outputBytes: nat,
      truncated: bool, timedOut: bool)
    requires EvidenceRelations(parser, o, toolVersion)
    requires ExecutionRelations(o, returncode, outputBytes, truncated, timedOut)
    ensures o.status.Clean? ==> returncode == 0 && !timedOut && !truncated
    ensures o.status in {Clean, Findings} ==> !timedOut && !truncated
  {
  }

  /** A pass means an unflagged run that returned zero, and a document of the right shape with
      no finding and no error over at least one target. */
  lemma PassedExact(parser: Parser, r: Response)
    ensures Interpret(parser, r).Interpreted? && Interpret(parser, r).outcome.status.Clean? <==> Passes(parser, r)
  {
    hide CountsOf, Counted, FindingCount, TargetCount, ErrorsReported;
    CountsExact(parser, r);
  }

  ghost predicate Passes(parser: Parser, r: Response) {
    && Unflagged(r) && r.returncode == 0 && Counted(parser, r) && !ErrorsReported(parser, r)
    && FindingCount(parser, r.document.value) == 0 && TargetCount(parser, r.document.value) > 0
  }

  /** An unflagged Trivy run whose document has the supported version and whose first failing
      result fails at a misconfiguration with an odd status. */
  ghost predicate RaisesOn(parser: Parser, r: Response) {
    && !r.timedOut && !r.truncated && parser.Trivy? && r.document.Some? && r.document.value.JObj?
    && Get(r.document.value.fields, "SchemaVersion") == JNum(2.0)
    && Get(r.document.value.fields, "Results").JArr?
    && var js := Get(r.document.value.fields, "Results").items;
       exists i :: 0 <= i < |js| && OddResult(js, i)
  }

  /** The interpretation is not total: it raises exactly for an unflagged Trivy run whose
      document has the supported version and whose first failing result fails at a
      misconfiguration with an odd status. */
  lemma RaisedExact(parser: Parser, r: Response)
    ensures Interpret(parser, r).Raised? <==> RaisesOn(parser, r)
  {
    hide Get, TrivySpec, OsvSpec, OddResult;
    if r.document.Some? {
      OsvNeverFaults(r.document.value);
      TrivyFaultExact(r.document.value);
    }
  }

  // ----- inputs that fail -----

  /** A Trivy result with one misconfiguration of the given status, and its document. */
  function OneResult(status: Json): Json {
    JObj([Field("Target", JStr("a")), Field("Class", JStr("config")), Field("Type", JStr("b")),
          Field("Misconfigurations", JArr([JObj([Field("Status", status)])]))])
  }

  function OneDocument(status: Json): Json {
    JObj([Field("SchemaVersion", JNum(2.0)), Field("Results", JArr([OneResult(status)]))])
  }

  lemma ArrayStatusFaults()
    ensures TrivyResult(OneResult(JArr([]))).Unhashable?
  {
    FourFields(OneResult(JArr([])).fields);
    TotalOne(Misconfiguration, JObj([Field("Status", JArr([]))]));
  }

  /** An array as status makes the interpretation raise. */
  lemma ArrayStatusRaises()
    ensures Interpret(Trivy, Response(Some(OneDocument(JArr([]))), true, 0, false, false)).Raised?
  {
    ArrayStatusFaults();
    hide TrivyResult, OneResult, OsvSpec, SemgrepSpec;
    GetAt(OneDocument(JArr([])).fields, 0);
    GetAt(OneDocument(JArr([])).fields, 1);
    TotalOne(TrivyResult, OneResult(JArr([])));
  }

  lemma FourFields(fields: seq<Field>)
    requires |fields| == 4
    requires fields[0].name == "Target" && fields[1].name == "Class" && fields[2].name == "Type"
    requires fields[3].name == "Misconfigurations"
    ensures Get(fields, "Target") == fields[0].value && Get(fields, "Class") == fields[1].value
    ensures Get(fields, "Type") == fields[2].value && Get(fields, "Misconfigurations") == fields[3].value
    ensures "Misconfigurations" in Keys(fields) && "Secrets" !in Keys(fields)
  {
    GetAt(fields, 0);
    GetAt(fields, 1);
    GetAt(fields, 2);
    GetAt(fields, 3);
  }

  /** Both flags set: the outcome is a time-out, which a truncated execution contradicts. */
  lemma BothFlagsContradict()
    ensures var r := Response(None, true, 124, true, true);
            && Interpret(Semgrep, r).Interpreted?
            && !ExecutionRelations(Interpret(Semgrep, r).outcome, r.returncode, 0, r.truncated, r.timedOut)
  {
    ExecutionExact(Semgrep, Response(None, true, 124, true, true), 0);
  }

  /** A run ended by a signal makes fitting evidence that cannot be read back. */
  lemma SignalUnreadable()
    ensures var output := ProcessOutput(-9, 0, false, false, [], []);
            var r := Response(None, true, output.returncode, output.timedOut, output.truncated);
            var result := Interpret(Semgrep, r);
            result.Interpreted? && Fits(result.outcome, output) && !Readable(result.outcome, output)
  {
    ExecutionExact(Semgrep, Response(None, true, -9, false, false), 0);
  }

  // ----- one run -----

  /** `interpret_profile_output`. An interpreted outcome always makes a valid evidence record,
      and one that fits its execution unless both flags are set; its reason and counts are
      explained by the document, and it is clean exactly for an unflagged run with return code
      zero that reports no error and no finding over some target; the call raises exactly on an
      odd status in the first failing result. */
  method InterpretProfileOutput(parser: Parser, r: Response) returns (result: Interpretation)
    ensures result == Interpret(parser, r)
    ensures result.Interpreted? ==> forall version | version != "" :: EvidenceRelations(parser, result.outcome, version)
    ensures result.Interpreted? && FlagsExplainCode(r) ==>
              forall size: nat :: ExecutionRelations(result.outcome, r.returncode, size, r.truncated, r.timedOut) <==>
                                  !(r.timedOut && r.truncated)
    ensures result.Interpreted? ==> Explained(parser, r, result.outcome)
    ensures result.Interpreted? && result.outcome.status.Clean? <==> Passes(parser, r)
    ensures result.Raised? <==> RaisesOn(parser, r)
  {
    hide Interpret, CountsOf, Classify, EvidenceRelations, ExecutionRelations, RaisesOn, Explained, Passes;
    result := Decide(parser, r);
    RaisedExact(parser, r);
    PassedExact(parser, r);
    if result.Interpreted? {
      OutcomeExact(parser, r);
      forall version | version != "" ensures EvidenceRelations(parser, result.outcome, version) {
        OutcomeIsEvidence(parser, r, version);
      }
      if FlagsExplainCode(r) {
        forall size: nat ensures ExecutionRelations(result.outcome, r.returncode, size, r.truncated, r.timedOut) <==>
                                 !(r.timedOut && r.truncated) {
          ExecutionExact(parser, r, size);
        }
      }
    }
  }

  /** The branches of the function, with the counting loops run where it runs them. */
  method Decide(parser: Parser, r: Response) returns (result: Interpretation)
    ensures result == Interpret(parser, r)
  {
    hide TrivySpec, OsvSpec, SemgrepSpec;
    if r.timedOut {
      return Interpreted(Outcome(Partial, TimedOut, 0, 0));
    }
    if r.truncated {
      return Interpreted(Outcome(Partial, OutputTruncated, 0, 0));
    }
    if r.document.None? {
      return Interpreted(Outcome(Partial, InvalidOutput, 0, 0));
    }
    var counts, errors;
    if parser.Semgrep? {
      var (c, e) := SemgrepSpec(r.document.value);
      counts, errors := c, e;
    } else if parser.Osv? {
      counts := OsvCounts(r.document.value);
      errors := !r.errorsBlank;
    } else {
      counts := TrivyCounts(r.document.value);
      errors := false;
    }
    return Classify(counts, errors, r.returncode);
  }

  /** Reading a run and interpreting what was kept: the resulting record satisfies both sets of
      relations for every execution and every schedule. */
  method RunProfile(execution: Execution, parser: Parser, decode: Bytes -> Option<Json>, blank: Bytes -> bool,
    toolVersion: string) returns (output: ProcessOutput, result: Interpretation)
    requires toolVersion != ""
    ensures result.Interpreted? ==>
            && EvidenceRelations(parser, result.outcome, toolVersion)
            && Fits(result.outcome, output)
            && (Readable(result.outcome, output) <==> output.timedOut || output.truncated || execution.exitCode >= 0)
    ensures result.Interpreted? && result.outcome.status in {Clean, Findings} ==> !output.truncated && !output.timedOut
    ensures result.Interpreted? && result.outcome.status.Clean? ==>
            && output.stdout == execution.stdout && output.stderr == execution.stderr && execution.exitCode == 0
            && output.returncode == 0
            && decode(execution.stdout).Some?
    ensures !output.timedOut && !output.truncated <==>
            && !RunsOut(execution) && |execution.stdout| + |execution.stderr| <= OUTPUT_LIMIT
            && (execution.ending.Exited? || execution.ending.ExitedInTime?)
    ensures result == Interpret(parser, Response(decode(output.stdout), blank(output.stderr), output.returncode,
                                                 output.timedOut, output.truncated))
  {
    hide Interpret, EvidenceRelations, ExecutionRelations, CountsOf;
    output := StreamProcess(execution);
    var response := Response(decode(output.stdout), blank(output.stderr), output.returncode, output.timedOut,
      output.truncated);
    result := InterpretProfileOutput(parser, response);
    if result.Interpreted? {
      OutcomeIsEvidence(parser, response, toolVersion);
      ExecutionExact(parser, response, output.outputBytes);
      PassedExact(parser, response);
      PassedIsPlain(parser, result.outcome, toolVersion, output.returncode, output.outputBytes, output.truncated,
        output.timedOut);
    }
  }
}
