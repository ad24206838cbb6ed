/** What the comparison of a campaign means: when it is eligible for promotion, what the order of
    the runs can change, and which records its own reader accepts. */
module CampaignVerdict {
  import opened Ordering
  import opened CampaignIdentity
  import opened CampaignCompare

  // ----- when a list is empty -----

  lemma {:induction false} InsertLength<T>(lt: (T, T) -> bool, x: T, xs: seq<T>)
    ensures |Insert(lt, x, xs)| == |xs| + 1
  {
    if xs != [] && lt(xs[0], x) {
      InsertLength(lt, x, xs[1..]);
    }
  }

  lemma {:induction false} SortLength<T>(lt: (T, T) -> bool, xs: seq<T>)
    ensures |SortBy(lt, xs)| == |xs|
  {
    if xs != [] {
      SortLength(lt, xs[1..]);
      InsertLength(lt, xs[0], SortBy(lt, xs[1..]));
    }
  }

  lemma ReportsNone(subject: string -> Problem, list: seq<Problem>, names: iset<string>)
    requires Reports(subject, list, names)
    ensures list == [] <==> names == iset{}
  {
    var ns :| list == Map(subject, ns) && Ascending(StringLess, ns) && forall n :: n in ns <==> n in names;
    if list == [] {
      assert ns == [];
      assert forall n :: n !in names;
    } else {
      assert ns[0] in names;
    }
  }

  lemma {:induction false} EvidenceMembers(runs: seq<Stored>, a: Adapter)
    ensures a in Evidence(runs) <==> exists s :: s in runs && a in s.adapters
  {
    if runs != [] {
      var init, last := runs[..|runs| - 1], runs[|runs| - 1];
      assert runs == init + [last];
      EvidenceMembers(init, a);
    }
  }

  // ----- convergence -----

  /** One run agrees with the campaign and with its own report policy. */
  ghost predicate RunClean(campaign: Campaign, s: Stored) {
    && s.inputFields == [] && s.complete
    && campaign.requiredDomains <= s.covered && s.omitted == []
    && s.adaptersValid && Elems(Map(NameOf, s.adapters)) == s.expectedAdapters && !Repeats(Map(NameOf, s.adapters))
  }

  ghost predicate SameEvidence(a: Stored, b: Stored) {
    forall x, y | x in a.adapters && y in b.adapters && x.name == y.name :: x.signature == y.signature
  }

  ghost predicate AllClean(campaign: Campaign, runs: seq<Stored>) {
    forall s | s in runs :: RunClean(campaign, s)
  }

  ghost predicate SameCoverage(runs: seq<Stored>) {
    forall a, b | a in runs && b in runs :: a.covered == b.covered
  }

  ghost predicate SameReports(runs: seq<Stored>) {
    forall a, b | a in runs && b in runs :: a.candidates == b.candidates && a.report == b.report
  }

  /** Any two runs agree on every native adapter they both ran. */
  ghost predicate AdaptersAgree(runs: seq<Stored>) {
    forall a, b | a in runs && b in runs :: SameEvidence(a, b)
  }

  ghost predicate AgentsDiffer(runs: seq<Stored>) {
    forall a, b | a in runs && b in runs && a != b :: a.agent != b.agent
  }

  ghost predicate NoClash(reviews: seq<Review>) {
    forall c :: !DecisionClash(reviews, c) && !PriorityClash(reviews, c)
  }

  /** All runs are clean and all pairs agree, there are enough of them, enough witnesses and (for
      a promotion) two operators, and the reviews exist and never contradict each other. */
  ghost predicate Converged(campaign: Campaign, runs: seq<Stored>, reviews: seq<seq<Review>>, ws: seq<Witness>) {
    && AllClean(campaign, runs) && SameCoverage(runs) && SameReports(runs) && AdaptersAgree(runs) && AgentsDiffer(runs)
    && |runs| >= campaign.expectedRuns && |ws| >= campaign.requiredWitnesses
    && (campaign.promotion ==> |Operators(ws)| >= 2)
    && reviews != [] && NoClash(Flatten(reviews))
  }

  lemma CleanLists(campaign: Campaign, runs: seq<Stored>)
    ensures AllClean(campaign, runs) ==> forall s | s in runs :: s.complete
    ensures AllClean(campaign, runs) <==>
            && Gather(InputProblems, runs) == [] && Gather(CoverageOf(campaign.requiredDomains), runs) == []
            && Gather(AdapterProblems, runs) == [] && forall s | s in runs :: s.complete
  {
    GatherEmpty(InputProblems, runs);
    GatherEmpty(CoverageOf(campaign.requiredDomains), runs);
    GatherEmpty(AdapterProblems, runs);
    forall s | s in runs ensures RunClean(campaign, s) <==>
      InputProblems(s) == [] && CoverageProblems(campaign.requiredDomains, s) == [] && AdapterProblems(s) == [] &&
        s.complete
    {
    }
  }

  lemma AgentsExact(runs: seq<Stored>)
    requires Distinct(runs)
    ensures |runs| == |Elems(Map(AgentOf, runs))| <==> AgentsDiffer(runs)
  {
    var agents := Map(AgentOf, runs);
    SizeMeansDistinct(agents);
    if Distinct(agents) {
      forall a, b | a in runs && b in runs && a != b ensures a.agent != b.agent {
        var i :| 0 <= i < |runs| && runs[i] == a;
        var j :| 0 <= j < |runs| && runs[j] == b;
        assert agents[i] != agents[j];
      }
    }
    if forall a, b | a in runs && b in runs && a != b :: a.agent != b.agent {
      forall i, j | 0 <= i < j < |agents| ensures agents[i] != agents[j] {
        assert runs[i] != runs[j];
      }
    }
  }

  lemma DivergingNone(runs: seq<Stored>)
    ensures DivergingNames(Evidence(runs)) == iset{} <==> AdaptersAgree(runs)
  {
    var all := Evidence(runs);
    forall a ensures a in all <==> exists s :: s in runs && a in s.adapters {
      EvidenceMembers(runs, a);
    }
    hide Evidence;
    if AdaptersAgree(runs) {
      forall n ensures !Diverges(all, n) {
      }
      assert forall n :: n !in DivergingNames(all);
    }
    if DivergingNames(all) == iset{} {
      forall a, b, x, y | a in runs && b in runs && x in a.adapters && y in b.adapters && x.name == y.name
        ensures x.signature == y.signature
      {
        assert x in all && y in all;
        assert x.name !in DivergingNames(all);
        assert !Diverges(all, x.name);
      }
    }
  }

  lemma CoverageExact(runs: seq<Stored>)
    ensures CoveredApart(runs) <==> !SameCoverage(runs)
  {
  }

  lemma DistinctRuns(runs: seq<Stored>)
    requires Distinct(Map(IdOf, Map(RunOf, runs)))
    ensures DifferentRuns(runs) && Distinct(runs) && Distinct(Map(IdOfStored, runs))
  {
    var ids := Map(IdOf, Map(RunOf, runs));
    forall i, j | 0 <= i < j < |runs| ensures runs[i].run.id != runs[j].run.id {
      assert ids[i] != ids[j];
    }
  }

  lemma DiligenceNone(campaign: Campaign, runs: seq<Stored>, reviews: seq<seq<Review>>, ws: seq<Witness>)
    ensures Diligence(campaign, runs, reviews, ws) == [] <==>
            && |runs| >= campaign.expectedRuns && |runs| == |Elems(Map(AgentOf, runs))|
            && (forall s | s in runs :: s.complete) && reviews != []
            && |ws| >= campaign.requiredWitnesses && (campaign.promotion ==> |Operators(ws)| >= 2)
  {
  }

  lemma AdapterNone(text: Wording, runs: seq<Stored>, list: seq<Problem>)
    requires AdapterList(text, runs, list)
    ensures list == [] <==> Gather(AdapterProblems, runs) == [] && DivergingNames(Evidence(runs)) == iset{}
  {
    var crossRun :| Reports(DivergingAdapter, crossRun, DivergingNames(Evidence(runs)))
      && list == SortText(text, Gather(AdapterProblems, runs) + crossRun);
    ReportsNone(DivergingAdapter, crossRun, DivergingNames(Evidence(runs)));
    SortLength(ByText(text), Gather(AdapterProblems, runs) + crossRun);
  }

  lemma ClashesNone(reviews: seq<Review>)
    ensures DecisionClashes(reviews) == iset{} && PriorityClashes(reviews) == iset{} <==> NoClash(reviews)
  {
    if DecisionClashes(reviews) == iset{} && PriorityClashes(reviews) == iset{} {
      forall c ensures !DecisionClash(reviews, c) && !PriorityClash(reviews, c) {
        assert c !in DecisionClashes(reviews) && c !in PriorityClashes(reviews);
      }
    }
    if NoClash(reviews) {
      assert forall c :: c !in DecisionClashes(reviews);
      assert forall c :: c !in PriorityClashes(reviews);
    }
  }

  /** A promotion is eligible exactly when the runs converge. */
  lemma EligibleExact(campaign: Campaign, runs: seq<Stored>, reviews: seq<seq<Review>>, text: Wording, r: Record)
    requires Acceptable(Map(RunOf, runs)) && Compares(campaign, runs, reviews, text, r)
    ensures !r.unresolved <==> Converged(campaign, runs, reviews, r.witnesses)
    ensures r.eligible <==> campaign.promotion && Converged(campaign, runs, reviews, r.witnesses)
  {
    hide Gather, Scanned, AllClean, SameCoverage, AdaptersAgree, AgentsDiffer, NoClash, DecisionClash,
      PriorityClash, Reports, AdapterList, Diligence, DivergingNames, Collapses, CoveredApart, Flatten, SortBy,
      SortUnique, Evidence, Elems, Operators;
    DistinctRuns(runs);
    CleanLists(campaign, runs);
    CoverageExact(runs);
    ScannedExact(runs);
    DivergingNone(runs);
    AgentsExact(runs);
    DiligenceNone(campaign, runs, reviews, r.witnesses);
    ClashesNone(Flatten(reviews));
    ReportsNone(ClashingDecision, r.review, DecisionClashes(Flatten(reviews)));
    ReportsNone(ClashingPriority, r.priority, PriorityClashes(Flatten(reviews)));
    AdapterNone(text, runs, r.adapter);
    SortLength(ByText(text), Gather(InputProblems, runs));
    SortLength(ByText(text), CoverageAll(campaign.requiredDomains, runs));
    SortLength(ByText(text), Scanned(runs));
    SortLength(ByText(text), Diligence(campaign, runs, reviews, r.witnesses));
  }

  // ----- the order of the runs -----

  lemma SameRuns(runs: seq<Stored>, runs': seq<Stored>)
    requires Elems(runs) == Elems(runs')
    ensures Elems(Map(RunOf, runs)) == Elems(Map(RunOf, runs')) &&
            Elems(Map(IdOfStored, runs)) == Elems(Map(IdOfStored, runs'))
  {
    MapElems(RunOf, runs);
    MapElems(RunOf, runs');
    MapElems(IdOfStored, runs);
    MapElems(IdOfStored, runs');
  }

  lemma ConvergedByMembers(campaign: Campaign, runs: seq<Stored>, runs': seq<Stored>, reviews: seq<seq<Review>>,
      ws: seq<Witness>)
    requires Elems(runs) == Elems(runs') && |runs| == |runs'|
    ensures Converged(campaign, runs, reviews, ws) <==> Converged(campaign, runs', reviews, ws)
  {
    hide RunClean, SameEvidence, NoClash, Operators;
    forall s ensures s in runs <==> s in runs' {
      assert s in Elems(runs) <==> s in Elems(runs');
    }
  }

  /** The order of the runs changes neither the witnesses, nor the run list, nor the verdict. */
  lemma OrderIndependent(campaign: Campaign, runs: seq<Stored>, runs': seq<Stored>, reviews: seq<seq<Review>>,
      text: Wording, r: Record, r': Record)
    requires Acceptable(Map(RunOf, runs)) && Acceptable(Map(RunOf, runs')) && Elems(runs) == Elems(runs')
    requires Compares(campaign, runs, reviews, text, r) && Compares(campaign, runs', reviews, text, r')
    ensures r.witnesses == r'.witnesses && r.runIds == r'.runIds
    ensures r.unresolved == r'.unresolved && r.eligible == r'.eligible
  {
    EligibleExact(campaign, runs, reviews, text, r);
    EligibleExact(campaign, runs', reviews, text, r');
    DistinctRuns(runs);
    DistinctRuns(runs');
    SizeMeansDistinct(runs);
    SizeMeansDistinct(runs');
    SameRuns(runs, runs');
    CollapseUnique(Elems(Map(RunOf, runs)), r.witnesses, r'.witnesses);
    ConvergedByMembers(campaign, runs, runs', reviews, r.witnesses);
    SameIds(runs, runs');
  }

  lemma SameIds(runs: seq<Stored>, runs': seq<Stored>)
    requires Distinct(Map(IdOfStored, runs)) && Distinct(Map(IdOfStored, runs'))
    requires Elems(Map(IdOfStored, runs)) == Elems(Map(IdOfStored, runs'))
    ensures SortBy(StringLess, Map(IdOfStored, runs)) == SortBy(StringLess, Map(IdOfStored, runs'))
  {
    StringOrder();
    SortDistinct(StringLess, Map(IdOfStored, runs));
    SortDistinct(StringLess, Map(IdOfStored, runs'));
    AscendingUnique(StringLess, SortBy(StringLess, Map(IdOfStored, runs)), SortBy(StringLess, Map(IdOfStored, runs')));
  }

  /** An eligible promotion rests on complete runs that all agree, on enough witnesses, and on
      runs of at least two operators. */
  lemma EligibleMeans(campaign: Campaign, runs: seq<Stored>, reviews: seq<seq<Review>>, text: Wording, r: Record,
      a: Stored, b: Stored)
    requires Acceptable(Map(RunOf, runs)) && Compares(campaign, runs, reviews, text, r) && r.eligible
    requires a in runs && b in runs
    ensures a.complete && a.candidates == b.candidates && a.report == b.report && a.covered == b.covered
    ensures |r.witnesses| >= campaign.requiredWitnesses && |runs| >= campaign.expectedRuns
    ensures exists x, y :: x in runs && y in runs && x.run.identity.operator != y.run.identity.operator
  {
    EligibleExact(campaign, runs, reviews, text, r);
    MoreThanOne(Operators(r.witnesses));
    var o, q :| o in Operators(r.witnesses) && q in Operators(r.witnesses) && o != q;
    var x := OperatorSource(runs, r.witnesses, o);
    var y := OperatorSource(runs, r.witnesses, q);
  }

  lemma OperatorSource(runs: seq<Stored>, ws: seq<Witness>, o: string) returns (s: Stored)
    requires Collapses(Elems(Map(RunOf, runs)), ws) && o in Operators(ws)
    ensures s in runs && s.run.identity.operator == o
  {
    var all := Elems(Map(RunOf, runs));
    var w :| w in ws && o in w.operators;
    assert SummaryOfSome(all, w);
    var a :| a in all && Summarises(w, Component(all, a));
    assert o in Elems(w.operators);
    var x :| x in Component(all, a) && OperatorOf(x) == o;
    assert x in all;
    var k :| 0 <= k < |runs| && Map(RunOf, runs)[k] == x;
    s := runs[k];
  }
}
