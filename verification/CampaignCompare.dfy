/** Comparing the independent runs of a campaign: the divergence lists, the record they build,
    and the checks its reader applies. */
module CampaignCompare {
  import opened Prelude
  import opened Ordering
  import opened CampaignIdentity

  datatype Campaign = Campaign(promotion: bool, expectedRuns: nat, requiredWitnesses: nat, requiredDomains: set<string>)

  /** One native-adapter evidence; its signature is the digest of its content. */
  datatype Adapter = Adapter(name: string, signature: string)

  /** inputFields are the report inputs that differ from the campaign contract; adaptersValid is
      the outcome of validating the evidence against the report policy. */
  datatype Stored = Stored(
    run: Run, agent: string, complete: bool, attestation: string,
    report: string, candidates: set<string>, inputFields: seq<string>,
    covered: set<string>, omitted: seq<string>,
    expectedAdapters: set<string>, adapters: seq<Adapter>, adaptersValid: bool)

  datatype Decision = Valid | Invalid | AcceptedBoundary | NeedsEvidence

  /** priority stands for severity, owner and acceptance gates together. */
  datatype Review = Review(candidate: string, decision: Decision, priority: string, digest: string)

  datatype Problem =
    | InputDiffers(run: string, field: string)
    | OmitsRequired(run: string) | DeclaresOmitted(run: string) | CoverageDiffers
    | CandidatesDiffer(base: string, run: string) | ReportDiffers(base: string, run: string)
    | AdaptersInvalid(run: string) | AdaptersMissing(run: string) | AdaptersExtra(run: string)
    | AdaptersDuplicated(run: string) | AdapterDiverges(name: string)
    | DecisionsDiffer(candidate: string) | PrioritiesDiffer(candidate: string)
    | TooFewRuns | AgentReused | Incomplete | NoReviews | TooFewWitnesses | TooFewOperators

  /** The text of a problem in the record. */
  type Wording = Problem -> string

  function ByText(text: Wording): (Problem, Problem) -> bool {
    (p, q) => StringLess(text(p), text(q))
  }

  // ----- the per-run problems -----

  function One(found: bool, p: Problem): seq<Problem> { if found then [p] else [] }

  function InputProblems(s: Stored): seq<Problem> {
    Map(f => InputDiffers(s.run.id, f), s.inputFields)
  }

  function CoverageProblems(required: set<string>, s: Stored): seq<Problem> {
    One(!(required <= s.covered), OmitsRequired(s.run.id)) + One(s.omitted != [], DeclaresOmitted(s.run.id))
  }

  function ScanProblems(base: Stored, s: Stored): seq<Problem> {
    if s.candidates != base.candidates then [CandidatesDiffer(base.run.id, s.run.id)]
    else One(s.report != base.report, ReportDiffers(base.run.id, s.run.id))
  }

  function NameOf(a: Adapter): string { a.name }

  predicate Repeats(names: seq<string>) {
    exists i, j :: 0 <= i < j < |names| && names[i] == names[j]
  }

  function AdapterProblems(s: Stored): seq<Problem> {
    var names := Map(NameOf, s.adapters);
    var observed := Elems(names);
    One(!s.adaptersValid, AdaptersInvalid(s.run.id)) + One(!(s.expectedAdapters <= observed), AdaptersMissing(s.run.id))
      + One(!(observed <= s.expectedAdapters), AdaptersExtra(s.run.id)) +
        One(Repeats(names), AdaptersDuplicated(s.run.id))
  }

  /** The problems of all runs, in the order of the runs. */
  function Gather(problems: Stored -> seq<Problem>, runs: seq<Stored>): seq<Problem> {
    if runs == [] then [] else Gather(problems, runs[..|runs| - 1]) + problems(runs[|runs| - 1])
  }

  lemma {:induction false} GatherEmpty(problems: Stored -> seq<Problem>, runs: seq<Stored>)
    ensures Gather(problems, runs) == [] <==> forall s | s in runs :: problems(s) == []
  {
    if runs != [] {
      var init, last := runs[..|runs| - 1], runs[|runs| - 1];
      assert runs == init + [last];
      GatherEmpty(problems, init);
    }
  }

  /** The run a per-run problem is about. */
  predicate About(p: Problem, id: string) {
    match p
    case InputDiffers(run, _) => run == id
    case OmitsRequired(run) => run == id
    case DeclaresOmitted(run) => run == id
    case CandidatesDiffer(_, run) => run == id
    case ReportDiffers(_, run) => run == id
    case AdaptersInvalid(run) => run == id
    case AdaptersMissing(run) => run == id
    case AdaptersExtra(run) => run == id
    case AdaptersDuplicated(run) => run == id
    case CoverageDiffers => false
    case AdapterDiverges(_) => false
    case DecisionsDiffer(_) => false
    case PrioritiesDiffer(_) => false
    case TooFewRuns => false
    case AgentReused => false
    case Incomplete => false
    case NoReviews => false
    case TooFewWitnesses => false
    case TooFewOperators => false
  }

  predicate DifferentRuns(runs: seq<Stored>) {
    forall i, j | 0 <= i < j < |runs| :: runs[i].run.id != runs[j].run.id
  }

  ghost predicate OwnProblems(problems: Stored -> seq<Problem>, s: Stored) {
    Distinct(problems(s)) && forall p | p in problems(s) :: About(p, s.run.id)
  }

  lemma {:induction false} GatherDistinct(problems: Stored -> seq<Problem>, runs: seq<Stored>)
    requires DifferentRuns(runs) && forall s | s in runs :: OwnProblems(problems, s)
    ensures Distinct(Gather(problems, runs))
    ensures forall p | p in Gather(problems, runs) :: exists s :: s in runs && About(p, s.run.id)
  {
    hide About;
    if runs != [] {
      var init, last := runs[..|runs| - 1], runs[|runs| - 1];
      assert runs == init + [last];
      GatherDistinct(problems, init);
      assert OwnProblems(problems, last);
      var before, after := Gather(problems, init), problems(last);
      forall p | p in before ensures p !in after {
        var s :| s in init && About(p, s.run.id);
        var i :| 0 <= i < |init| && init[i] == s;
        assert runs[i].run.id != runs[|runs| - 1].run.id;
        OneRun(p, s.run.id, last.run.id);
      }
      DistinctConcat(before, after);
    }
  }

  lemma OneRun(p: Problem, a: string, b: string)
    requires a != b && About(p, a)
    ensures !About(p, b)
  {
  }

  lemma DistinctConcat<T>(a: seq<T>, b: seq<T>)
    requires Distinct(a) && Distinct(b) && forall x | x in a :: x !in b
    ensures Distinct(a + b)
  {
    var c := a + b;
    forall i, j | 0 <= i < j < |c| ensures c[i] != c[j] {
      if i < |a| <= j {
        assert c[i] in a && c[j] in b;
      }
    }
  }

  /** `for stored in runs: problems.append(...)` */
  method Collect(problems: Stored -> seq<Problem>, runs: seq<Stored>) returns (found: seq<Problem>)
    ensures found == Gather(problems, runs)
  {
    found := [];
    for i := 0 to |runs|
      invariant found == Gather(problems, runs[..i])
    {
      assert runs[..i + 1][..i] == runs[..i];
      found := found + problems(runs[i]);
    }
    assert runs[..|runs|] == runs;
  }

  // ----- the cross-run problems -----

  lemma MoreThanOne<T>(xs: set<T>)
    ensures |xs| > 1 <==> exists x, y :: x in xs && y in xs && x != y
  {
    if |xs| > 1 {
      var x :| x in xs;
      assert |xs - {x}| >= 1;
      var y :| y in xs - {x};
    }
    if x, y :| x in xs && y in xs && x != y {
      assert |{x, y}| == 2 && {x, y} <= xs;
      SubsetSize({x, y}, xs);
    }
  }

  function CoverageOf(required: set<string>): Stored -> seq<Problem> { s => CoverageProblems(required, s) }

  ghost predicate CoveredApart(runs: seq<Stored>) {
    exists a, b :: a in runs && b in runs && a.covered != b.covered
  }

  function Covered(runs: seq<Stored>): set<set<string>> { set s | s in runs :: s.covered }

  lemma CoveredExact(runs: seq<Stored>)
    ensures |Covered(runs)| > 1 <==> CoveredApart(runs)
  {
    MoreThanOne(Covered(runs));
    if CoveredApart(runs) {
      var a, b :| a in runs && b in runs && a.covered != b.covered;
      assert a.covered in Covered(runs) && b.covered in Covered(runs);
    }
  }

  ghost function CoverageAll(required: set<string>, runs: seq<Stored>): seq<Problem> {
    Gather(CoverageOf(required), runs) + if CoveredApart(runs) then [CoverageDiffers] else []
  }

  /** `_coverage_divergence`, before its sort. */
  method CoverageDivergence(required: set<string>, runs: seq<Stored>) returns (found: seq<Problem>)
    ensures found == CoverageAll(required, runs)
  {
    found := Collect(CoverageOf(required), runs);
    var coverageSets: map<set<string>, seq<string>> := map[];
    for i := 0 to |runs|
      invariant coverageSets.Keys == Covered(runs[..i])
    {
      var c := runs[i].covered;
      assert runs[..i + 1] == runs[..i] + [runs[i]];
      coverageSets := coverageSets[c := (if c in coverageSets then coverageSets[c] else []) + [runs[i].run.id]];
    }
    assert runs[..|runs|] == runs;
    CoveredExact(runs);
    assert |coverageSets| == |coverageSets.Keys|;
    if |coverageSets| > 1 {
      found := found + [CoverageDiffers];
    }
  }

  function ScanOf(base: Stored): Stored -> seq<Problem> { s => ScanProblems(base, s) }

  function Scanned(runs: seq<Stored>): seq<Problem> {
    if |runs| < 2 then [] else Gather(ScanOf(runs[0]), runs[1..])
  }

  /** Comparing with the first run only is comparing all pairs. */
  lemma ScannedExact(runs: seq<Stored>)
    ensures Scanned(runs) == [] <==>
            forall a, b | a in runs && b in runs :: a.candidates == b.candidates && a.report == b.report
  {
    if |runs| >= 2 {
      GatherEmpty(ScanOf(runs[0]), runs[1..]);
      assert runs == [runs[0]] + runs[1..];
      assert runs[0] in runs && forall s | s in runs[1..] :: s in runs;
    }
  }

  /** All native-adapter evidence of the runs. */
  function Evidence(runs: seq<Stored>): seq<Adapter> {
    if runs == [] then [] else Evidence(runs[..|runs| - 1]) + runs[|runs| - 1].adapters
  }

  function Signatures(evidence: seq<Adapter>, name: string): set<string> {
    set a | a in evidence && a.name == name :: a.signature
  }

  ghost predicate Diverges(evidence: seq<Adapter>, name: string) {
    exists a, b :: a in evidence && b in evidence && a.name == b.name == name && a.signature != b.signature
  }

  lemma DivergesExact(evidence: seq<Adapter>, name: string)
    ensures |Signatures(evidence, name)| > 1 <==> Diverges(evidence, name)
  {
    MoreThanOne(Signatures(evidence, name));
    if Diverges(evidence, name) {
      var a, b :| a in evidence && b in evidence && a.name == b.name == name && a.signature != b.signature;
      assert a.signature in Signatures(evidence, name) && b.signature in Signatures(evidence, name);
    }
  }

  type ByName = map<string, map<string, seq<string>>>

  ghost predicate Fills(byName: ByName, evidence: seq<Adapter>) {
    && (forall n :: n in byName <==> Signatures(evidence, n) != {})
    && forall n | n in byName :: byName[n].Keys == Signatures(evidence, n)
  }

  lemma SignaturesNext(evidence: seq<Adapter>, a: Adapter, n: string)
    ensures Signatures(evidence + [a], n) == Signatures(evidence, n) + if n == a.name then {a.signature} else {}
  {
  }

  lemma FillsNext(byName: ByName, evidence: seq<Adapter>, a: Adapter, runs: seq<string>)
    requires Fills(byName, evidence)
    ensures var seen := if a.name in byName then byName[a.name] else map[];
            Fills(byName[a.name := seen[a.signature := runs]], evidence + [a])
  {
    forall n
      ensures Signatures(evidence + [a], n) == Signatures(evidence, n) + if n == a.name then {a.signature} else {}
    {
      SignaturesNext(evidence, a, n);
    }
    hide Signatures;
  }

  function DivergingAdapter(name: string): Problem { AdapterDiverges(name) }

  ghost predicate Reports(subject: string -> Problem, problem: seq<Problem>, names: iset<string>) {
    exists ns :: problem == Map(subject, ns) && Ascending(StringLess, ns) && (forall n :: n in ns <==> n in names)
  }

  /** list reports ns, which is what names selects among the first i entries of the order. */
  ghost predicate Selected(order: seq<string>, i: nat, subject: string -> Problem, list: seq<Problem>, ns: seq<string>,
      names: iset<string>)
    requires i <= |order|
  {
    && list == Map(subject, ns)
    && Ascending(StringLess, order) && Ascending(StringLess, ns)
    && forall n :: n in ns <==> n in order[..i] && n in names
  }

  lemma SelectNone(order: seq<string>, subject: string -> Problem, names: iset<string>)
    requires Ascending(StringLess, order)
    ensures Selected(order, 0, subject, [], [], names)
  {
  }

  lemma SelectNext(order: seq<string>, i: nat, subject: string -> Problem, list: seq<Problem>, ns: seq<string>,
      names: iset<string>)
    requires i < |order| && Selected(order, i, subject, list, ns, names)
    ensures var n := order[i];
            if n in names then Selected(order, i + 1, subject, list + [subject(n)], ns + [n], names)
            else Selected(order, i + 1, subject, list, ns, names)
  {
    var n := order[i];
    assert order[..i + 1] == order[..i] + [n];
    forall m | m in ns ensures StringLess(m, n) {
      var k :| 0 <= k < i && order[k] == m;
    }
    assert Map(subject, ns + [n]) == Map(subject, ns) + [subject(n)];
  }

  lemma SelectAll(order: seq<string>, subject: string -> Problem, list: seq<Problem>, ns: seq<string>,
      names: iset<string>)
    requires Selected(order, |order|, subject, list, ns, names) && forall n | n in names :: n in Elems(order)
    ensures Reports(subject, list, names)
  {
    assert order[..|order|] == order;
  }

  /** Every evidence of one run enters the table. */
  method FillRun(s: Stored, byName: ByName, ghost before: seq<Adapter>) returns (after: ByName)
    requires Fills(byName, before)
    ensures Fills(after, before + s.adapters)
  {
    after := byName;
    assert before + s.adapters[..0] == before;
    for i := 0 to |s.adapters|
      invariant Fills(after, before + s.adapters[..i])
    {
      var a := s.adapters[i];
      var signatures := if a.name in after then after[a.name] else map[];
      var seen := if a.signature in signatures then signatures[a.signature] else [];
      FillsNext(after, before + s.adapters[..i], a, seen + [s.run.id]);
      assert before + s.adapters[..i + 1] == (before + s.adapters[..i]) + [a];
      after := after[a.name := signatures[a.signature := seen + [s.run.id]]];
    }
    assert s.adapters[..|s.adapters|] == s.adapters;
  }

  ghost function DivergingNames(evidence: seq<Adapter>): iset<string> {
    iset n | Diverges(evidence, n)
  }

  /** The last loop of `_adapter_divergence`: the names with more than one signature, sorted. */
  method DivergingAdapters(byName: ByName, ghost evidence: seq<Adapter>) returns (found: seq<Problem>)
    requires Fills(byName, evidence)
    ensures Reports(DivergingAdapter, found, DivergingNames(evidence))
  {
    hide Selected, Diverges, Signatures;
    var order := SortNames(byName.Keys);
    ghost var names := DivergingNames(evidence);
    found := [];
    ghost var ns: seq<string> := [];
    assert Selected(order, 0, DivergingAdapter, found, ns, names) by { SelectNone(order, DivergingAdapter, names); }
    for i := 0 to |order|
      invariant Selected(order, i, DivergingAdapter, found, ns, names)
    {
      var n := order[i];
      assert n in Elems(order);
      DivergesExact(evidence, n);
      assert |byName[n]| == |byName[n].Keys|;
      SelectNext(order, i, DivergingAdapter, found, ns, names);
      if |byName[n]| > 1 {
        found := found + [AdapterDiverges(n)];
        ns := ns + [n];
      }
    }
    forall n | n in names ensures n in Elems(order) {
      DivergesExact(evidence, n);
      assert Signatures(evidence, n) != {};
    }
    SelectAll(order, DivergingAdapter, found, ns, names);
  }

  /** `_adapter_divergence`, before its sort. */
  method AdapterDivergence(runs: seq<Stored>) returns (found: seq<Problem>, crossRun: seq<Problem>)
    ensures found == Gather(AdapterProblems, runs) + crossRun
    ensures Reports(DivergingAdapter, crossRun, DivergingNames(Evidence(runs)))
  {
    var perRun := Collect(AdapterProblems, runs);
    var byName: ByName := map[];
    for i := 0 to |runs|
      invariant Fills(byName, Evidence(runs[..i]))
    {
      assert runs[..i + 1][..i] == runs[..i];
      byName := FillRun(runs[i], byName, Evidence(runs[..i]));
    }
    assert runs[..|runs|] == runs;
    crossRun := DivergingAdapters(byName, Evidence(runs));
    found := perRun + crossRun;
  }

  // ----- reviews -----

  function Decisive(reviews: seq<Review>): seq<Review> {
    if reviews == [] then []
    else Decisive(reviews[..|reviews| - 1]) +
         if reviews[|reviews| - 1].decision.NeedsEvidence? then [] else [reviews[|reviews| - 1]]
  }

  function Flatten(reviews: seq<seq<Review>>): seq<Review> {
    if reviews == [] then [] else Flatten(reviews[..|reviews| - 1]) + reviews[|reviews| - 1]
  }

  lemma {:induction false} DecisiveMembers(reviews: seq<Review>, r: Review)
    ensures r in Decisive(reviews) <==> r in reviews && !r.decision.NeedsEvidence?
  {
    if reviews != [] {
      DecisiveMembers(reviews[..|reviews| - 1], r);
      assert reviews == reviews[..|reviews| - 1] + [reviews[|reviews| - 1]];
    }
  }

  /** Two reviews that settle the same candidate settle it differently. */
  ghost predicate DecisionClash(reviews: seq<Review>, c: string) {
    exists a, b :: a in reviews && b in reviews && a.candidate == b.candidate == c
      && !a.decision.NeedsEvidence? && !b.decision.NeedsEvidence? && a.decision != b.decision
  }

  /** Two reviews that find the same candidate valid differ in severity, owner or gates. */
  ghost predicate PriorityClash(reviews: seq<Review>, c: string) {
    exists a, b :: a in reviews && b in reviews && a.candidate == b.candidate == c
      && a.decision.Valid? && b.decision.Valid? && a.priority != b.priority
  }

  function DecisionValues(records: seq<Review>): set<Decision> { set r | r in records :: r.decision }

  function PriorityValues(records: seq<Review>): set<string> { set r | r in records && r.decision.Valid? :: r.priority }

  type ByCandidate = map<string, seq<Review>>

  ghost predicate Sorts(byCandidate: ByCandidate, decisive: seq<Review>) {
    && (forall r | r in decisive :: r.candidate in byCandidate && r in byCandidate[r.candidate])
    && forall c, r | c in byCandidate && r in byCandidate[c] :: r in decisive && r.candidate == c
  }

  lemma ClashesExact(byCandidate: ByCandidate, reviews: seq<Review>, c: string)
    requires Sorts(byCandidate, Decisive(reviews))
    ensures DecisionClash(reviews, c) <==> c in byCandidate && |DecisionValues(byCandidate[c])| > 1
    ensures PriorityClash(reviews, c) <==> c in byCandidate && |PriorityValues(byCandidate[c])| > 1
  {
    forall r ensures r in Decisive(reviews) <==> r in reviews && !r.decision.NeedsEvidence? {
      DecisiveMembers(reviews, r);
    }
    hide Decisive;
    if c in byCandidate {
      MoreThanOne(DecisionValues(byCandidate[c]));
      MoreThanOne(PriorityValues(byCandidate[c]));
    }
    DecisionClashBoth(byCandidate, reviews, c);
    PriorityClashBoth(byCandidate, reviews, c);
  }

  lemma DecisionClashBoth(byCandidate: ByCandidate, reviews: seq<Review>, c: string)
    requires Sorts(byCandidate, Decisive(reviews))
    requires forall r :: r in Decisive(reviews) <==> r in reviews && !r.decision.NeedsEvidence?
    ensures DecisionClash(reviews, c) <==>
            c in byCandidate &&
            exists x, y :: x in DecisionValues(byCandidate[c]) && y in DecisionValues(byCandidate[c]) && x != y
  {
    hide Decisive;
    if DecisionClash(reviews, c) {
      var a, b :| a in reviews && b in reviews && a.candidate == b.candidate == c
        && !a.decision.NeedsEvidence? && !b.decision.NeedsEvidence? && a.decision != b.decision;
      assert a.decision in DecisionValues(byCandidate[c]) && b.decision in DecisionValues(byCandidate[c]);
    }
  }

  lemma PriorityClashBoth(byCandidate: ByCandidate, reviews: seq<Review>, c: string)
    requires Sorts(byCandidate, Decisive(reviews))
    requires forall r :: r in Decisive(reviews) <==> r in reviews && !r.decision.NeedsEvidence?
    ensures PriorityClash(reviews, c) <==>
            c in byCandidate &&
            exists x, y :: x in PriorityValues(byCandidate[c]) && y in PriorityValues(byCandidate[c]) && x != y
  {
    hide Decisive;
    if PriorityClash(reviews, c) {
      var a, b :| a in reviews && b in reviews && a.candidate == b.candidate == c
        && a.decision.Valid? && b.decision.Valid? && a.priority != b.priority;
      assert a.priority in PriorityValues(byCandidate[c]) && b.priority in PriorityValues(byCandidate[c]);
    }
  }

  function ClashingDecision(c: string): Problem { DecisionsDiffer(c) }
  function ClashingPriority(c: string): Problem { PrioritiesDiffer(c) }

  ghost function DecisionClashes(reviews: seq<Review>): iset<string> { iset c | DecisionClash(reviews, c) }
  ghost function PriorityClashes(reviews: seq<Review>): iset<string> { iset c | PriorityClash(reviews, c) }

  /** The grouping loop of `_review_divergence`. */
  method ByCandidateOf(reviews: seq<Review>) returns (byCandidate: ByCandidate)
    ensures Sorts(byCandidate, Decisive(reviews))
  {
    byCandidate := map[];
    for i := 0 to |reviews|
      invariant Sorts(byCandidate, Decisive(reviews[..i]))
    {
      var r := reviews[i];
      assert reviews[..i + 1][..i] == reviews[..i];
      if !r.decision.NeedsEvidence? {
        var records := if r.candidate in byCandidate then byCandidate[r.candidate] else [];
        byCandidate := byCandidate[r.candidate := records + [r]];
      }
    }
    assert reviews[..|reviews|] == reviews;
  }

  /** `_review_divergence`: both lists follow the sorted candidate identifiers. */
  method ReviewDivergence(reviews: seq<seq<Review>>) returns (decisions: seq<Problem>, priorities: seq<Problem>)
    ensures Reports(ClashingDecision, decisions, DecisionClashes(Flatten(reviews)))
    ensures Reports(ClashingPriority, priorities, PriorityClashes(Flatten(reviews)))
  {
    hide Decisive, DecisionClash, PriorityClash, Selected, DecisionValues, PriorityValues;
    var all := Flatten(reviews);
    var byCandidate := ByCandidateOf(all);
    var order := SortNames(byCandidate.Keys);
    ghost var differing, ranked := DecisionClashes(all), PriorityClashes(all);
    decisions, priorities := [], [];
    ghost var ds: seq<string>, ps: seq<string> := [], [];
    SelectNone(order, ClashingDecision, differing);
    SelectNone(order, ClashingPriority, ranked);
    for i := 0 to |order|
      invariant Selected(order, i, ClashingDecision, decisions, ds, differing)
      invariant Selected(order, i, ClashingPriority, priorities, ps, ranked)
    {
      var c := order[i];
      assert c in Elems(order);
      ClashesExact(byCandidate, all, c);
      SelectNext(order, i, ClashingDecision, decisions, ds, differing);
      SelectNext(order, i, ClashingPriority, priorities, ps, ranked);
      if |DecisionValues(byCandidate[c])| > 1 {
        decisions, ds := decisions + [DecisionsDiffer(c)], ds + [c];
      }
      if |PriorityValues(byCandidate[c])| > 1 {
        priorities, ps := priorities + [PrioritiesDiffer(c)], ps + [c];
      }
    }
    forall c ensures (c in differing ==> c in Elems(order)) && (c in ranked ==> c in Elems(order)) {
      ClashesExact(byCandidate, all, c);
    }
    SelectAll(order, ClashingDecision, decisions, ds, differing);
    SelectAll(order, ClashingPriority, priorities, ps, ranked);
  }

  // ----- the record -----

  datatype Record = Record(
    promotion: bool, expectedRuns: nat, actualRuns: nat, requiredWitnesses: nat, actualWitnesses: nat,
    runIds: seq<string>, agents: seq<string>, attestations: seq<string>,
    reports: seq<string>, reviewDigests: seq<string>,
    witnesses: seq<Witness>,
    input: seq<Problem>, coverage: seq<Problem>, scanner: seq<Problem>, adapter: seq<Problem>,
    review: seq<Problem>, priority: seq<Problem>, diligence: seq<Problem>,
    unresolved: bool, eligible: bool)

  function RunOf(s: Stored): Run { s.run }
  function IdOfStored(s: Stored): string { s.run.id }
  function AgentOf(s: Stored): string { s.agent }
  function AttestationOf(s: Stored): string { s.attestation }
  function ReportOf(s: Stored): string { s.report }
  function DigestOf(r: Review): string { r.digest }

  function Operators(ws: seq<Witness>): set<string> {
    set w, o | w in ws && o in w.operators :: o
  }

  /** `promotion_identity_gaps`, or the weaker witness check of a diagnostic campaign. */
  function IdentityGaps(campaign: Campaign, ws: seq<Witness>): seq<Problem> {
    One(|ws| < campaign.requiredWitnesses, TooFewWitnesses)
      + One(campaign.promotion && |Operators(ws)| < 2, TooFewOperators)
  }

  function Diligence(campaign: Campaign, runs: seq<Stored>, reviews: seq<seq<Review>>, ws: seq<Witness>): seq<Problem> {
    One(|runs| < campaign.expectedRuns, TooFewRuns)
      + One(|runs| != |Elems(Map(AgentOf, runs))|, AgentReused)
      + One(exists s | s in runs :: !s.complete, Incomplete)
      + One(reviews == [], NoReviews)
      + IdentityGaps(campaign, ws)
  }

  function SortText(text: Wording, ps: seq<Problem>): seq<Problem> { SortBy(ByText(text), ps) }

  ghost predicate AdapterList(text: Wording, runs: seq<Stored>, list: seq<Problem>) {
    exists crossRun :: Reports(DivergingAdapter, crossRun, DivergingNames(Evidence(runs)))
      && list == SortText(text, Gather(AdapterProblems, runs) + crossRun)
  }

  /** r is the record of the comparison. */
  ghost predicate Compares(campaign: Campaign, runs: seq<Stored>, reviews: seq<seq<Review>>, text: Wording, r: Record) {
    && r.promotion == campaign.promotion && r.expectedRuns == campaign.expectedRuns && r.actualRuns == |runs|
    && r.requiredWitnesses == campaign.requiredWitnesses && r.actualWitnesses == |r.witnesses|
    && r.runIds == SortBy(StringLess, Map(IdOfStored, runs))
    && r.agents == SortUnique(StringLess, Map(AgentOf, runs))
    && r.attestations == SortBy(StringLess, Map(AttestationOf, runs))
    && r.reports == SortUnique(StringLess, Map(ReportOf, runs))
    && r.reviewDigests == SortUnique(StringLess, Map(DigestOf, Flatten(reviews)))
    && Collapses(Elems(Map(RunOf, runs)), r.witnesses)
    && r.input == SortText(text, Gather(InputProblems, runs))
    && r.coverage == SortText(text, CoverageAll(campaign.requiredDomains, runs))
    && r.scanner == SortText(text, Scanned(runs))
    && AdapterList(text, runs, r.adapter)
    && Reports(ClashingDecision, r.review, DecisionClashes(Flatten(reviews)))
    && Reports(ClashingPriority, r.priority, PriorityClashes(Flatten(reviews)))
    && r.diligence == SortText(text, Diligence(campaign, runs, reviews, r.witnesses))
    && r.unresolved == AnyProblem(r)
    && r.eligible == (campaign.promotion && !r.unresolved)
  }

  predicate AnyProblem(r: Record) {
    r.input != [] || r.coverage != [] || r.scanner != [] || r.adapter != [] || r.review != [] || r.priority != []
    || r.diligence != []
  }

  /** `compare_campaign`; it raises exactly when the collapse refuses the runs. */
  method CompareCampaign(campaign: Campaign, runs: seq<Stored>, reviews: seq<seq<Review>>, text: Wording)
    returns (result: Option<Record>)
    ensures result.Some? <==> Acceptable(Map(RunOf, runs))
    ensures result.Some? ==> Compares(campaign, runs, reviews, text, result.value)
  {
    hide Gather, Scanned, Evidence, Diverges, DecisionClash, PriorityClash, Reports, Diligence, SortBy, SortUnique,
      Collapses, Acceptable, Flatten;
    var input := Collect(InputProblems, runs);
    var coverage := CoverageDivergence(campaign.requiredDomains, runs);
    var scanner := [];
    if |runs| >= 2 {
      scanner := Collect(ScanOf(runs[0]), runs[1..]);
    }
    assert scanner == Scanned(runs) by { ScannedIs(runs); }
    var adapter, crossRun := AdapterDivergence(runs);
    var review, priority := ReviewDivergence(reviews);
    var collapse := CollapseModelWitnesses(Map(RunOf, runs));
    if !collapse.Collapsed? {
      return None;
    }
    var ws := collapse.witnesses;
    var r := Record(
      campaign.promotion, campaign.expectedRuns, |runs|, campaign.requiredWitnesses, |ws|,
      SortBy(StringLess, Map(IdOfStored, runs)), SortUnique(StringLess, Map(AgentOf, runs)),
      SortBy(StringLess, Map(AttestationOf, runs)), SortUnique(StringLess, Map(ReportOf, runs)),
      SortUnique(StringLess, Map(DigestOf, Flatten(reviews))), ws,
      SortText(text, input), SortText(text, coverage), SortText(text, scanner), SortText(text, adapter),
      review, priority, SortText(text, Diligence(campaign, runs, reviews, ws)), false, false);
    var unresolved := AnyProblem(r);
    r := r.(unresolved := unresolved, eligible := campaign.promotion && !unresolved);
    assert AdapterList(text, runs, r.adapter);
    assert Compares(campaign, runs, reviews, text, r);
    return Some(r);
  }

  lemma ScannedIs(runs: seq<Stored>)
    ensures Scanned(runs) == if |runs| < 2 then [] else Gather(ScanOf(runs[0]), runs[1..])
  {
  }
}
