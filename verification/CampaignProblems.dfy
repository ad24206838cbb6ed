/** Which problems a comparison lists: one for each defect of the runs, the reviews and the
    witnesses, and nothing else. */
module CampaignProblems {
  import opened Prelude
  import opened Ordering
  import opened CampaignIdentity
  import opened CampaignCompare
  import opened CampaignVerdict
  import opened CampaignReader

  // ----- defects, said of the inputs -----

  ghost predicate RunDefect(campaign: Campaign, runs: seq<Stored>, i: nat, p: Problem)
    requires i < |runs|
  {
    var s, first := runs[i], runs[0];
    match p
    case InputDiffers(run, field) => run == s.run.id && field in s.inputFields
    case OmitsRequired(run) => run == s.run.id && exists d :: d in campaign.requiredDomains && d !in s.covered
    case DeclaresOmitted(run) => run == s.run.id && |s.omitted| > 0
    case CandidatesDiffer(base, run) =>
      && base == first.run.id && run == s.run.id && i > 0
      && exists c :: c in s.candidates <==> c !in first.candidates
    case ReportDiffers(base, run) =>
      && base == first.run.id && run == s.run.id && i > 0
      && s.report != first.report && forall c :: c in s.candidates <==> c in first.candidates
    case AdaptersInvalid(run) => run == s.run.id && !s.adaptersValid
    case AdaptersMissing(run) => run == s.run.id && exists n :: n in s.expectedAdapters && !RanAdapter(s, n)
    case AdaptersExtra(run) => run == s.run.id && exists n :: n !in s.expectedAdapters && RanAdapter(s, n)
    case AdaptersDuplicated(run) =>
      run == s.run.id && exists j, k :: 0 <= j < k < |s.adapters| && s.adapters[j].name == s.adapters[k].name
    case _ => false
  }

  ghost predicate RanAdapter(s: Stored, name: string) {
    exists a :: a in s.adapters && a.name == name
  }

  /** Two runs, or two reviews, or the campaign as a whole. */
  ghost predicate CrossDefect(campaign: Campaign, runs: seq<Stored>, reviews: seq<seq<Review>>, ws: seq<Witness>,
    p: Problem)
  {
    match p
    case CoverageDiffers => exists s, t, d :: s in runs && t in runs && d in s.covered && d !in t.covered
    case AdapterDiverges(n) => exists x, y :: Observed(runs, n, x) && Observed(runs, n, y) && x.signature != y.signature
    case DecisionsDiffer(c) =>
      exists x, y :: Reviewed(reviews, x) && Reviewed(reviews, y) && x.candidate == c && y.candidate == c &&
                     x.decision != NeedsEvidence && y.decision != NeedsEvidence && x.decision != y.decision
    case PrioritiesDiffer(c) =>
      exists x, y :: Reviewed(reviews, x) && Reviewed(reviews, y) && x.candidate == c && y.candidate == c &&
                     x.decision == Valid && y.decision == Valid && x.priority != y.priority
    case TooFewRuns => |runs| < campaign.expectedRuns
    case AgentReused => exists i, j :: 0 <= i < j < |runs| && runs[i].agent == runs[j].agent
    case Incomplete => exists s :: s in runs && !s.complete
    case NoReviews => |reviews| == 0
    case TooFewWitnesses => |ws| < campaign.requiredWitnesses
    case TooFewOperators =>
      campaign.promotion && forall o, o' :: OperatesSome(ws, o) && OperatesSome(ws, o') ==> o == o'
    case _ => false
  }

  /** Some run carries this evidence for the adapter. */
  ghost predicate Observed(runs: seq<Stored>, name: string, a: Adapter) {
    a.name == name && exists s :: s in runs && a in s.adapters
  }

  ghost predicate Reviewed(reviews: seq<seq<Review>>, r: Review) {
    exists rs :: rs in reviews && r in rs
  }

  ghost predicate OperatesSome(ws: seq<Witness>, o: string) {
    exists w :: w in ws && o in w.operators
  }

  // ----- one run -----

  lemma CoverageDefects(campaign: Campaign, runs: seq<Stored>, i: nat, p: Problem)
    requires i < |runs|
    ensures p in CoverageProblems(campaign.requiredDomains, runs[i]) <==>
            (p.OmitsRequired? || p.DeclaresOmitted?) && RunDefect(campaign, runs, i, p)
  {
  }

  lemma InputDefects(campaign: Campaign, runs: seq<Stored>, i: nat, p: Problem)
    requires i < |runs|
    ensures p in InputProblems(runs[i]) <==> p.InputDiffers? && RunDefect(campaign, runs, i, p)
  {
    var s := runs[i];
    if p.InputDiffers? && RunDefect(campaign, runs, i, p) {
      var k :| 0 <= k < |s.inputFields| && s.inputFields[k] == p.field;
      assert InputProblems(s)[k] == p;
    }
  }

  lemma ScanDefects(campaign: Campaign, runs: seq<Stored>, i: nat, p: Problem)
    requires 0 < i < |runs|
    ensures p in ScanProblems(runs[0], runs[i]) <==>
            (p.CandidatesDiffer? || p.ReportDiffers?) && RunDefect(campaign, runs, i, p)
  {
    var a, b := runs[i].candidates, runs[0].candidates;
    if forall c :: c in a <==> c in b {
      assert a == b;
    }
  }

  lemma AdapterNames(s: Stored, n: string)
    ensures n in Elems(Map(NameOf, s.adapters)) <==> RanAdapter(s, n)
  {
    if a :| a in s.adapters && a.name == n {
      var k :| 0 <= k < |s.adapters| && s.adapters[k] == a;
      assert Map(NameOf, s.adapters)[k] == n;
    }
  }

  lemma AdapterDefects(campaign: Campaign, runs: seq<Stored>, i: nat, p: Problem)
    requires i < |runs|
    ensures p in AdapterProblems(runs[i]) <==>
            && (p.AdaptersInvalid? || p.AdaptersMissing? || p.AdaptersExtra? || p.AdaptersDuplicated?)
            && RunDefect(campaign, runs, i, p)
  {
    var s := runs[i];
    forall n ensures n in Elems(Map(NameOf, s.adapters)) <==> RanAdapter(s, n) {
      AdapterNames(s, n);
    }
    RepeatsExact(s);
    hide RanAdapter, Repeats;
  }

  lemma RepeatsExact(s: Stored)
    ensures Repeats(Map(NameOf, s.adapters)) <==>
            exists j, k :: 0 <= j < k < |s.adapters| && s.adapters[j].name == s.adapters[k].name
  {
    if j, k :| 0 <= j < k < |s.adapters| && s.adapters[j].name == s.adapters[k].name {
      assert Map(NameOf, s.adapters)[j] == Map(NameOf, s.adapters)[k];
    }
  }

  lemma {:induction false} GatherMembers(problems: Stored -> seq<Problem>, runs: seq<Stored>, p: Problem)
    ensures p in Gather(problems, runs) <==> exists i :: 0 <= i < |runs| && p in problems(runs[i])
  {
    if runs != [] {
      GatherMembers(problems, runs[..|runs| - 1], p);
    }
  }

  // ----- across the runs and the reviews -----

  lemma CoverageCross(campaign: Campaign, runs: seq<Stored>, reviews: seq<seq<Review>>, ws: seq<Witness>)
    ensures CoveredApart(runs) <==> CrossDefect(campaign, runs, reviews, ws, CoverageDiffers)
  {
    if CoveredApart(runs) {
      var a, b :| a in runs && b in runs && a.covered != b.covered;
      if d :| d in a.covered && d !in b.covered {
      } else {
        assert a.covered <= b.covered;
        var d :| d in b.covered && d !in a.covered;
      }
    }
  }

  lemma AdapterCross(campaign: Campaign, runs: seq<Stored>, reviews: seq<seq<Review>>, ws: seq<Witness>, n: string)
    ensures Diverges(Evidence(runs), n) <==> CrossDefect(campaign, runs, reviews, ws, AdapterDiverges(n))
  {
    forall a ensures Observed(runs, n, a) <==> a in Evidence(runs) && a.name == n {
      EvidenceMembers(runs, a);
    }
    hide Evidence, Observed;
  }

  lemma {:induction false} FlattenMembers(reviews: seq<seq<Review>>, r: Review)
    ensures r in Flatten(reviews) <==> Reviewed(reviews, r)
  {
    if reviews != [] {
      var init, last := reviews[..|reviews| - 1], reviews[|reviews| - 1];
      assert reviews == init + [last];
      FlattenMembers(init, r);
    }
  }

  lemma ReviewCross(campaign: Campaign, runs: seq<Stored>, reviews: seq<seq<Review>>, ws: seq<Witness>, c: string)
    ensures DecisionClash(Flatten(reviews), c) <==> CrossDefect(campaign, runs, reviews, ws, DecisionsDiffer(c))
    ensures PriorityClash(Flatten(reviews), c) <==> CrossDefect(campaign, runs, reviews, ws, PrioritiesDiffer(c))
  {
    forall r ensures r in Flatten(reviews) <==> Reviewed(reviews, r) {
      FlattenMembers(reviews, r);
    }
    hide Flatten, Reviewed;
  }

  lemma OperatorsCross(ws: seq<Witness>)
    ensures |Operators(ws)| < 2 <==> forall o, o' :: OperatesSome(ws, o) && OperatesSome(ws, o') ==> o == o'
  {
    MoreThanOne(Operators(ws));
    assert forall o :: o in Operators(ws) <==> OperatesSome(ws, o);
    hide OperatesSome, Operators;
  }

  lemma AgentsCross(runs: seq<Stored>)
    ensures |runs| != |Elems(Map(AgentOf, runs))| <==>
            exists i, j :: 0 <= i < j < |runs| && runs[i].agent == runs[j].agent
  {
    var agents := Map(AgentOf, runs);
    SizeMeansDistinct(agents);
    if i, j :| 0 <= i < j < |runs| && runs[i].agent == runs[j].agent {
      assert agents[i] == agents[j];
    }
  }

  lemma DiligenceDefects(campaign: Campaign, runs: seq<Stored>, reviews: seq<seq<Review>>, ws: seq<Witness>, p: Problem)
    ensures p in Diligence(campaign, runs, reviews, ws) <==>
            && p in {TooFewRuns, AgentReused, Incomplete, NoReviews, TooFewWitnesses, TooFewOperators}
            && CrossDefect(campaign, runs, reviews, ws, p)
  {
    OperatorsCross(ws);
    AgentsCross(runs);
    hide OperatesSome, Operators, AgentOf;
    GapDefects(campaign, runs, reviews, ws, p);
    hide IdentityGaps;
  }

  lemma GapDefects(campaign: Campaign, runs: seq<Stored>, reviews: seq<seq<Review>>, ws: seq<Witness>, p: Problem)
    ensures p in IdentityGaps(campaign, ws) <==>
            p in {TooFewWitnesses, TooFewOperators} && CrossDefect(campaign, runs, reviews, ws, p)
  {
    OperatorsCross(ws);
    hide OperatesSome, Operators;
  }

  // ----- the record -----

  ghost predicate Defect(campaign: Campaign, runs: seq<Stored>, reviews: seq<seq<Review>>, ws: seq<Witness>,
    p: Problem)
  {
    || CrossDefect(campaign, runs, reviews, ws, p)
    || exists i :: 0 <= i < |runs| && RunDefect(campaign, runs, i, p)
  }

  /** The list a problem belongs to. */
  function ListOf(r: Record, p: Problem): seq<Problem> {
    match p
    case InputDiffers(_, _) => r.input
    case OmitsRequired(_) | DeclaresOmitted(_) | CoverageDiffers => r.coverage
    case CandidatesDiffer(_, _) | ReportDiffers(_, _) => r.scanner
    case AdaptersInvalid(_) | AdaptersMissing(_) | AdaptersExtra(_) | AdaptersDuplicated(_) | AdapterDiverges(_) =>
      r.adapter
    case DecisionsDiffer(_) => r.review
    case PrioritiesDiffer(_) => r.priority
    case _ => r.diligence
  }

  lemma SortedMembers(text: Wording, ps: seq<Problem>, p: Problem)
    ensures p in SortText(text, ps) <==> p in ps
  {
    TextOrderWeak(text);
    SortBySorts(ByText(text), ps);
    assert p in ps <==> p in Elems(ps);
    assert p in SortText(text, ps) <==> p in Elems(SortText(text, ps));
  }

  lemma GatheredInput(campaign: Campaign, runs: seq<Stored>, p: Problem)
    ensures p in Gather(InputProblems, runs) <==>
            p.InputDiffers? && exists i :: 0 <= i < |runs| && RunDefect(campaign, runs, i, p)
  {
    GatherMembers(InputProblems, runs, p);
    forall i | 0 <= i < |runs|
      ensures p in InputProblems(runs[i]) <==> p.InputDiffers? && RunDefect(campaign, runs, i, p)
    {
      InputDefects(campaign, runs, i, p);
    }
    hide RunDefect, InputProblems;
  }

  lemma GatheredCoverage(campaign: Campaign, runs: seq<Stored>, p: Problem)
    ensures p in Gather(CoverageOf(campaign.requiredDomains), runs) <==>
            (p.OmitsRequired? || p.DeclaresOmitted?) && exists i :: 0 <= i < |runs| && RunDefect(campaign, runs, i, p)
  {
    GatherMembers(CoverageOf(campaign.requiredDomains), runs, p);
    forall i | 0 <= i < |runs|
      ensures p in CoverageProblems(campaign.requiredDomains, runs[i]) <==>
              (p.OmitsRequired? || p.DeclaresOmitted?) && RunDefect(campaign, runs, i, p)
    {
      CoverageDefects(campaign, runs, i, p);
    }
    hide RunDefect, CoverageProblems;
  }

  lemma GatheredAdapters(campaign: Campaign, runs: seq<Stored>, p: Problem)
    ensures p in Gather(AdapterProblems, runs) <==>
            && (p.AdaptersInvalid? || p.AdaptersMissing? || p.AdaptersExtra? || p.AdaptersDuplicated?)
            && exists i :: 0 <= i < |runs| && RunDefect(campaign, runs, i, p)
  {
    GatherMembers(AdapterProblems, runs, p);
    forall i | 0 <= i < |runs|
      ensures p in AdapterProblems(runs[i]) <==>
              && (p.AdaptersInvalid? || p.AdaptersMissing? || p.AdaptersExtra? || p.AdaptersDuplicated?)
              && RunDefect(campaign, runs, i, p)
    {
      AdapterDefects(campaign, runs, i, p);
    }
    hide RunDefect, AdapterProblems;
  }

  lemma GatheredScans(campaign: Campaign, runs: seq<Stored>, p: Problem)
    ensures p in Scanned(runs) <==>
            (p.CandidatesDiffer? || p.ReportDiffers?) && exists i :: 0 <= i < |runs| && RunDefect(campaign, runs, i, p)
  {
    if |runs| >= 2 {
      GatherMembers(ScanOf(runs[0]), runs[1..], p);
      forall i | 0 < i < |runs|
        ensures p in ScanProblems(runs[0], runs[1..][i - 1]) <==>
                (p.CandidatesDiffer? || p.ReportDiffers?) && RunDefect(campaign, runs, i, p)
      {
        ScanDefects(campaign, runs, i, p);
      }
      if i :| 0 <= i < |runs| && (p.CandidatesDiffer? || p.ReportDiffers?) && RunDefect(campaign, runs, i, p) {
        assert i > 0;
      }
      hide RunDefect, ScanProblems;
      forall k | 0 <= k < |runs[1..]| && p in ScanProblems(runs[0], runs[1..][k])
        ensures (p.CandidatesDiffer? || p.ReportDiffers?) && RunDefect(campaign, runs, k + 1, p)
      {
      }
    }
  }

  lemma ListedInput(campaign: Campaign, runs: seq<Stored>, reviews: seq<seq<Review>>, text: Wording, r: Record,
    p: Problem)
    requires Compares(campaign, runs, reviews, text, r)
    ensures p in r.input <==> p.InputDiffers? && Defect(campaign, runs, reviews, r.witnesses, p)
    ensures p in r.scanner <==>
            (p.CandidatesDiffer? || p.ReportDiffers?) && Defect(campaign, runs, reviews, r.witnesses, p)
  {
    SortedMembers(text, Gather(InputProblems, runs), p);
    SortedMembers(text, Scanned(runs), p);
    GatheredInput(campaign, runs, p);
    GatheredScans(campaign, runs, p);
    hide RunDefect, Gather, Scanned, Collapses, Reports, AdapterList, SortBy, SortUnique;
  }

  lemma ListedCoverage(campaign: Campaign, runs: seq<Stored>, reviews: seq<seq<Review>>, text: Wording, r: Record,
    p: Problem)
    requires Compares(campaign, runs, reviews, text, r)
    ensures p in r.coverage <==>
            (p.OmitsRequired? || p.DeclaresOmitted? || p.CoverageDiffers?)
            && Defect(campaign, runs, reviews, r.witnesses, p)
  {
    SortedMembers(text, CoverageAll(campaign.requiredDomains, runs), p);
    GatheredCoverage(campaign, runs, p);
    CoverageCross(campaign, runs, reviews, r.witnesses);
    NeverOwn(campaign, runs, p);
    hide RunDefect, Gather, CoveredApart, Collapses, Reports, AdapterList, SortBy, SortUnique;
  }

  lemma NeverOwn(campaign: Campaign, runs: seq<Stored>, p: Problem)
    ensures !(p.InputDiffers? || p.OmitsRequired? || p.DeclaresOmitted? || p.CandidatesDiffer? || p.ReportDiffers? ||
              p.AdaptersInvalid? || p.AdaptersMissing? || p.AdaptersExtra? || p.AdaptersDuplicated?) ==>
            forall i | 0 <= i < |runs| :: !RunDefect(campaign, runs, i, p)
  {
  }

  lemma ReportsMembers(subject: string -> Problem, list: seq<Problem>, names: iset<string>, p: Problem)
    requires Reports(subject, list, names)
    ensures p in list <==> exists n :: n in names && subject(n) == p
  {
    var ns :| list == Map(subject, ns) && Ascending(StringLess, ns) && forall n :: n in ns <==> n in names;
    if n :| n in names && subject(n) == p {
      var k :| 0 <= k < |ns| && ns[k] == n;
      assert list[k] == p;
    }
    if p in list {
      var k :| 0 <= k < |list| && list[k] == p;
      assert ns[k] in names;
    }
  }

  lemma CrossAdapters(campaign: Campaign, runs: seq<Stored>, reviews: seq<seq<Review>>, ws: seq<Witness>,
    crossRun: seq<Problem>, p: Problem)
    requires Reports(DivergingAdapter, crossRun, DivergingNames(Evidence(runs)))
    ensures p in crossRun <==> p.AdapterDiverges? && CrossDefect(campaign, runs, reviews, ws, p)
  {
    ReportsMembers(DivergingAdapter, crossRun, DivergingNames(Evidence(runs)), p);
    if p.AdapterDiverges? {
      AdapterCross(campaign, runs, reviews, ws, p.name);
      assert DivergingAdapter(p.name) == p;
    }
    hide CrossDefect, Reports, Diverges, Evidence;
  }

  lemma ListedAdapter(campaign: Campaign, runs: seq<Stored>, reviews: seq<seq<Review>>, text: Wording, r: Record,
    p: Problem)
    requires Compares(campaign, runs, reviews, text, r)
    ensures p in r.adapter <==>
            && (p.AdaptersInvalid? || p.AdaptersMissing? || p.AdaptersExtra? || p.AdaptersDuplicated?
                || p.AdapterDiverges?)
            && Defect(campaign, runs, reviews, r.witnesses, p)
  {
    var crossRun :| Reports(DivergingAdapter, crossRun, DivergingNames(Evidence(runs)))
      && r.adapter == SortText(text, Gather(AdapterProblems, runs) + crossRun);
    SortedMembers(text, Gather(AdapterProblems, runs) + crossRun, p);
    GatheredAdapters(campaign, runs, p);
    CrossAdapters(campaign, runs, reviews, r.witnesses, crossRun, p);
    NeverOwn(campaign, runs, p);
    hide RunDefect, CrossDefect, Gather, Reports, Compares, SortBy;
  }

  lemma ListedReviews(campaign: Campaign, runs: seq<Stored>, reviews: seq<seq<Review>>, text: Wording, r: Record,
    p: Problem)
    requires Compares(campaign, runs, reviews, text, r)
    ensures p in r.review <==> p.DecisionsDiffer? && Defect(campaign, runs, reviews, r.witnesses, p)
    ensures p in r.priority <==> p.PrioritiesDiffer? && Defect(campaign, runs, reviews, r.witnesses, p)
  {
    ReportsMembers(ClashingDecision, r.review, DecisionClashes(Flatten(reviews)), p);
    ReportsMembers(ClashingPriority, r.priority, PriorityClashes(Flatten(reviews)), p);
    if p.DecisionsDiffer? || p.PrioritiesDiffer? {
      ReviewCross(campaign, runs, reviews, r.witnesses, p.candidate);
      assert ClashingDecision(p.candidate) == DecisionsDiffer(p.candidate);
      assert ClashingPriority(p.candidate) == PrioritiesDiffer(p.candidate);
    }
    NeverOwn(campaign, runs, p);
    hide RunDefect, CrossDefect, Reports, DecisionClash, PriorityClash, Compares;
  }

  lemma ListedDiligence(campaign: Campaign, runs: seq<Stored>, reviews: seq<seq<Review>>, text: Wording, r: Record,
    p: Problem)
    requires Compares(campaign, runs, reviews, text, r)
    ensures p in r.diligence <==>
            && p in {TooFewRuns, AgentReused, Incomplete, NoReviews, TooFewWitnesses, TooFewOperators}
            && Defect(campaign, runs, reviews, r.witnesses, p)
  {
    SortedMembers(text, Diligence(campaign, runs, reviews, r.witnesses), p);
    DiligenceDefects(campaign, runs, reviews, r.witnesses, p);
    NeverOwn(campaign, runs, p);
    hide RunDefect, CrossDefect, Diligence, Collapses, Reports, AdapterList, SortBy, SortUnique;
  }

  /** Each list holds exactly the problems of its kind that are defects of the comparison, so a
      defect is listed in its own list and nothing else is. */
  lemma ListsExact(campaign: Campaign, runs: seq<Stored>, reviews: seq<seq<Review>>, text: Wording, r: Record,
    p: Problem)
    requires Compares(campaign, runs, reviews, text, r)
    ensures p in ListOf(r, p) <==> Defect(campaign, runs, reviews, r.witnesses, p)
    ensures p in r.input + r.coverage + r.scanner + r.adapter + r.review + r.priority + r.diligence <==>
            p in ListOf(r, p)
  {
    ListedInput(campaign, runs, reviews, text, r, p);
    ListedCoverage(campaign, runs, reviews, text, r, p);
    ListedAdapter(campaign, runs, reviews, text, r, p);
    ListedReviews(campaign, runs, reviews, text, r, p);
    ListedDiligence(campaign, runs, reviews, text, r, p);
    hide Compares, Defect;
  }

  /** A record is unresolved exactly when the comparison has some defect. */
  lemma UnresolvedExact(campaign: Campaign, runs: seq<Stored>, reviews: seq<seq<Review>>, text: Wording, r: Record)
    requires Compares(campaign, runs, reviews, text, r)
    ensures r.unresolved <==> exists p :: Defect(campaign, runs, reviews, r.witnesses, p)
    ensures r.eligible <==> campaign.promotion && !r.unresolved
  {
    var all := r.input + r.coverage + r.scanner + r.adapter + r.review + r.priority + r.diligence;
    assert AnyProblem(r) <==> all != [];
    forall p ensures p in all <==> Defect(campaign, runs, reviews, r.witnesses, p) {
      ListsExact(campaign, runs, reviews, text, r, p);
    }
    if all != [] {
      assert all[0] in all;
    }
    hide Defect;
  }

  /** One identifier and one attestation for each run. */
  ghost predicate PerRun(runs: seq<Stored>, ids: seq<string>, attestations: seq<string>) {
    && |ids| == |attestations| == |runs|
    && forall i | 0 <= i < |runs| :: ids[i] == runs[i].run.id && attestations[i] == runs[i].attestation
  }

  /** The identifiers and attestations of the runs, sorted, with repetitions. */
  lemma IdsExact(campaign: Campaign, runs: seq<Stored>, reviews: seq<seq<Review>>, text: Wording, r: Record)
    requires Compares(campaign, runs, reviews, text, r)
    ensures Ordered(StringLess, r.runIds) && Ordered(StringLess, r.attestations)
    ensures exists ids, attestations :: PerRun(runs, ids, attestations) &&
              multiset(ids) == multiset(r.runIds) && multiset(attestations) == multiset(r.attestations)
  {
    hide Collapses, AdapterList, Reports, SortBy, SortUnique;
    StringOrder();
    TotalIsWeak(StringLess);
    SortBySorts(StringLess, Map(IdOfStored, runs));
    SortBySorts(StringLess, Map(AttestationOf, runs));
    assert PerRun(runs, Map(IdOfStored, runs), Map(AttestationOf, runs));
  }

  /** The agents, reports and review digests, ascending, without repetitions. */
  lemma ValuesExact(campaign: Campaign, runs: seq<Stored>, reviews: seq<seq<Review>>, text: Wording, r: Record)
    requires Compares(campaign, runs, reviews, text, r)
    ensures Ascending(StringLess, r.agents) && forall x :: x in r.agents <==> exists s :: s in runs && s.agent == x
    ensures Ascending(StringLess, r.reports) && forall x :: x in r.reports <==> exists s :: s in runs && s.report == x
    ensures && Ascending(StringLess, r.reviewDigests)
            && forall x :: x in r.reviewDigests <==> exists v :: Reviewed(reviews, v) && v.digest == x
  {
    assert r.agents == SortUnique(StringLess, Map(AgentOf, runs));
    assert r.reports == SortUnique(StringLess, Map(ReportOf, runs));
    assert r.reviewDigests == SortUnique(StringLess, Map(DigestOf, Flatten(reviews)));
    hide Compares, SortUnique, Flatten, Ascending;
    SortedValues(AgentOf, runs);
    SortedValues(ReportOf, runs);
    DigestValues(reviews);
  }

  lemma DigestValues(reviews: seq<seq<Review>>)
    ensures var digests := SortUnique(StringLess, Map(DigestOf, Flatten(reviews)));
            && Ascending(StringLess, digests)
            && forall x :: x in digests <==> exists v :: Reviewed(reviews, v) && v.digest == x
  {
    SortedValues(DigestOf, Flatten(reviews));
    forall v ensures v in Flatten(reviews) <==> Reviewed(reviews, v) {
      FlattenMembers(reviews, v);
    }
    hide SortUnique, Flatten, Reviewed, Ascending;
  }

  lemma SortedValues<T(!new)>(f: T -> string, xs: seq<T>)
    ensures Ascending(StringLess, SortUnique(StringLess, Map(f, xs)))
    ensures forall x :: x in SortUnique(StringLess, Map(f, xs)) <==> exists y :: y in xs && f(y) == x
  {
    StringOrder();
    SortUniqueSorts(StringLess, Map(f, xs));
    forall x ensures x in SortUnique(StringLess, Map(f, xs)) <==> x in Map(f, xs) {
      assert x in SortUnique(StringLess, Map(f, xs)) <==> x in Elems(SortUnique(StringLess, Map(f, xs)));
    }
    forall y | y in xs ensures f(y) in Map(f, xs) {
      var k :| 0 <= k < |xs| && xs[k] == y;
      assert Map(f, xs)[k] == f(y);
    }
  }
}
