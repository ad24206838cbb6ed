/** The cross-field checks of the comparison reader, and the records they accept. */
module CampaignReader {
  import opened Ordering
  import opened CampaignIdentity
  import opened CampaignCompare
  import opened CampaignVerdict
  import opened CampaignWording

  function Flat<T>(f: Witness -> seq<T>, ws: seq<Witness>): seq<T> {
    if ws == [] then [] else Flat(f, ws[..|ws| - 1]) + f(ws[|ws| - 1])
  }

  function FamiliesOf(w: Witness): seq<string> { w.families }
  function ExactModelsOf(w: Witness): seq<(string, string)> { w.exactModels }
  function RunIdsOf(w: Witness): seq<string> { w.runIds }

  ghost predicate InOrder(text: Wording, ps: seq<Problem>) { Ascending(ByText(text), ps) }

  ghost predicate WitnessChecks(r: Record) {
    && Ascending(WitnessLess, r.witnesses)
    && Distinct(Flat(FamiliesOf, r.witnesses)) && Distinct(Flat(ExactModelsOf, r.witnesses))
    && r.actualWitnesses == |r.witnesses| <= r.actualRuns
    && Distinct(Flat(RunIdsOf, r.witnesses)) && SortBy(StringLess, Flat(RunIdsOf, r.witnesses)) == r.runIds
  }

  ghost predicate RunChecks(r: Record) {
    && Ascending(StringLess, r.runIds) && r.actualRuns == |r.runIds|
    && Ascending(StringLess, r.agents) && (r.agents == [] <==> r.runIds == []) && |r.agents| <= |r.runIds|
    && Ascending(StringLess, r.reports) && (r.reports == [] <==> r.runIds == []) && |r.reports| <= |r.runIds|
    && Ascending(StringLess, r.reviewDigests)
  }

  ghost predicate AttestationChecks(r: Record) {
    Ascending(StringLess, r.attestations) && r.actualRuns == |r.attestations|
  }

  ghost predicate ListChecks(text: Wording, r: Record) {
    && InOrder(text, r.input) && InOrder(text, r.coverage) && InOrder(text, r.scanner) && InOrder(text, r.adapter)
    && InOrder(text, r.diligence)
  }

  /** The cross-field checks of `AuditComparison.from_dict`. */
  ghost predicate Readable(text: Wording, r: Record) {
    && WitnessChecks(r) && RunChecks(r) && AttestationChecks(r) && ListChecks(text, r)
    && InOrder(text, r.review) && InOrder(text, r.priority)
    && r.expectedRuns >= 1 && r.requiredWitnesses >= 1 && r.requiredWitnesses <= r.expectedRuns
    && r.unresolved == AnyProblem(r) && r.eligible == (r.promotion && !AnyProblem(r))
  }

  // ----- witnesses -----

  lemma {:induction false} FlatMembers<T>(f: Witness -> seq<T>, ws: seq<Witness>, x: T)
    ensures x in Flat(f, ws) <==> exists i :: 0 <= i < |ws| && x in f(ws[i])
  {
    if ws != [] {
      var init, last := ws[..|ws| - 1], ws[|ws| - 1];
      FlatMembers(f, init, x);
      if i :| 0 <= i < |ws| && x in f(ws[i]) {
        assert i < |init| ==> init[i] == ws[i];
      }
      if x in Flat(f, init) {
        var i :| 0 <= i < |init| && x in f(init[i]);
        assert ws[i] == init[i];
      }
    }
  }

  ghost predicate Apart<T(!new)>(f: Witness -> seq<T>, v: Witness, w: Witness) {
    forall x | x in f(v) :: x !in f(w)
  }

  lemma {:induction false} FlatDistinct<T(!new)>(f: Witness -> seq<T>, ws: seq<Witness>)
    requires forall i | 0 <= i < |ws| :: Distinct(f(ws[i]))
    requires forall i, j | 0 <= i < j < |ws| :: Apart(f, ws[i], ws[j])
    ensures Distinct(Flat(f, ws))
  {
    if ws != [] {
      var init, last := ws[..|ws| - 1], ws[|ws| - 1];
      FlatDistinct(f, init);
      forall x | x in Flat(f, init) ensures x !in f(last) {
        FlatMembers(f, init, x);
        var i :| 0 <= i < |init| && x in f(init[i]);
        assert Apart(f, ws[i], ws[|ws| - 1]);
      }
      DistinctConcat(Flat(f, init), f(last));
    }
  }

  lemma {:induction false} FlatAtLeast<T>(f: Witness -> seq<T>, ws: seq<Witness>)
    requires forall i | 0 <= i < |ws| :: f(ws[i]) != []
    ensures |Flat(f, ws)| >= |ws|
  {
    if ws != [] {
      FlatAtLeast(f, ws[..|ws| - 1]);
    }
  }

  lemma WitnessSource(s: set<Run>, ws: seq<Witness>, i: nat) returns (a: Run)
    requires Collapses(s, ws) && i < |ws|
    ensures a in s && Summarises(ws[i], Component(s, a))
    ensures Distinct(ws[i].families) && Distinct(ws[i].exactModels) && Distinct(ws[i].runIds) && ws[i].runIds != []
  {
    assert SummaryOfSome(s, ws[i]);
    a :| a in s && Summarises(ws[i], Component(s, a));
    StringOrder();
    PairOrder();
    AscendingOrdered(StringLess, ws[i].families);
    AscendingOrdered(PairLess, ws[i].exactModels);
    AscendingOrdered(StringLess, ws[i].runIds);
    ComponentsMeet(s, a, a);
    assert IdOf(a) in Elems(ws[i].runIds);
  }

  lemma IdApart(s: set<Run>, a: Run, b: Run, v: Witness, w: Witness, x: string)
    requires UniqueIds(s) && Component(s, a) !! Component(s, b)
    requires Summarises(v, Component(s, a)) && Summarises(w, Component(s, b)) && x in v.runIds
    ensures x !in w.runIds
  {
    assert x in Elems(v.runIds);
    var p :| p in Component(s, a) && IdOf(p) == x;
    forall q | q in Component(s, b) ensures IdOf(q) != x {
      assert p in s && q in s;
    }
    assert x !in Elems(w.runIds);
  }

  lemma WitnessesApart(s: set<Run>, ws: seq<Witness>, i: nat, j: nat)
    requires Collapses(s, ws) && UniqueIds(s) && i < j < |ws|
    ensures Apart(FamiliesOf, ws[i], ws[j]) && Apart(ExactModelsOf, ws[i], ws[j]) && Apart(RunIdsOf, ws[i], ws[j])
  {
    var a := WitnessSource(s, ws, i);
    var b := WitnessSource(s, ws, j);
    ComponentsMeet(s, a, b);
    assert !Linked(s, a, b) by {
      if Linked(s, a, b) {
        SummaryUnique(ws[i], ws[j], Component(s, a));
        WitnessOrder();
        AscendingPosition(WitnessLess, ws, i, j);
      }
    }
    KeysDiffer(s, a, b, ws[i], ws[j]);
    forall x | x in ws[i].runIds ensures x !in ws[j].runIds {
      IdApart(s, a, b, ws[i], ws[j], x);
    }
  }

  lemma IdHasRun(s: set<Run>, ws: seq<Witness>, x: string)
    requires Collapses(s, ws) && x in Flat(RunIdsOf, ws)
    ensures x in Image(IdOf, s)
  {
    FlatMembers(RunIdsOf, ws, x);
    hide Flat;
    var i :| 0 <= i < |ws| && x in RunIdsOf(ws[i]);
    var a := WitnessSource(s, ws, i);
    hide Collapses;
    assert x in Elems(ws[i].runIds);
    assert Image(IdOf, Component(s, a)) <= Image(IdOf, s);
  }

  lemma RunHasId(s: set<Run>, ws: seq<Witness>, a: Run)
    requires Collapses(s, ws) && a in s
    ensures a.id in Flat(RunIdsOf, ws)
  {
    FlatMembers(RunIdsOf, ws, a.id);
    hide Flat;
    assert HasSummary(s, ws, a);
    var w :| w in ws && Summarises(w, Component(s, a));
    ComponentsMeet(s, a, a);
    assert IdOf(a) in Elems(w.runIds);
    var i :| 0 <= i < |ws| && ws[i] == w;
    assert a.id in RunIdsOf(ws[i]);
  }

  lemma RunIdsCovered(s: set<Run>, ws: seq<Witness>)
    requires Collapses(s, ws)
    ensures Elems(Flat(RunIdsOf, ws)) == Image(IdOf, s)
  {
    hide Flat, Collapses;
    forall x | x in Flat(RunIdsOf, ws) ensures x in Image(IdOf, s) {
      IdHasRun(s, ws, x);
    }
    forall a | a in s ensures IdOf(a) in Flat(RunIdsOf, ws) {
      RunHasId(s, ws, a);
    }
  }

  /** A collapse passes every check the reader makes on witnesses. */
  lemma CollapseReadable(s: set<Run>, ws: seq<Witness>)
    requires Collapses(s, ws) && UniqueIds(s)
    ensures Distinct(Flat(FamiliesOf, ws)) && Distinct(Flat(ExactModelsOf, ws)) && Distinct(Flat(RunIdsOf, ws))
    ensures Elems(Flat(RunIdsOf, ws)) == Image(IdOf, s) && |Flat(RunIdsOf, ws)| >= |ws|
  {
    hide Collapses;
    forall i | 0 <= i < |ws|
      ensures Distinct(FamiliesOf(ws[i])) && Distinct(ExactModelsOf(ws[i])) && Distinct(RunIdsOf(ws[i])) &&
              RunIdsOf(ws[i]) != []
    {
      var a := WitnessSource(s, ws, i);
    }
    forall i, j | 0 <= i < j < |ws|
      ensures Apart(FamiliesOf, ws[i], ws[j]) && Apart(ExactModelsOf, ws[i], ws[j]) && Apart(RunIdsOf, ws[i], ws[j])
    {
      WitnessesApart(s, ws, i, j);
    }
    FlatDistinct(FamiliesOf, ws);
    FlatDistinct(ExactModelsOf, ws);
    FlatDistinct(RunIdsOf, ws);
    FlatAtLeast(RunIdsOf, ws);
    RunIdsCovered(s, ws);
  }

  // ----- lists -----

  ghost predicate TextsDiffer(text: Wording, ps: seq<Problem>) {
    forall i, j | 0 <= i < j < |ps| :: text(ps[i]) != text(ps[j])
  }

  lemma TextOrderWeak(text: Wording)
    ensures StrictWeak(ByText(text))
  {
    StringOrder();
    TotalIsWeak(StringLess);
  }

  /** Sorting problems with different texts puts them in the strict order of their texts. */
  lemma SortedInOrder(text: Wording, ps: seq<Problem>)
    requires TextsDiffer(text, ps)
    ensures InOrder(text, SortText(text, ps))
  {
    TextOrderWeak(text);
    StringOrder();
    forall i, j | 0 <= i < j < |ps| ensures ByText(text)(ps[i], ps[j]) || ByText(text)(ps[j], ps[i]) {
      assert text(ps[i]) != text(ps[j]);
    }
    SortComparable(ByText(text), ps);
  }

  lemma {:induction false} GatherMember(problems: Stored -> seq<Problem>, runs: seq<Stored>, p: Problem)
    returns (s: Stored)
    requires p in Gather(problems, runs)
    ensures s in runs && p in problems(s)
  {
    var init, last := runs[..|runs| - 1], runs[|runs| - 1];
    assert runs == init + [last];
    if p in problems(last) {
      s := last;
    } else {
      s := GatherMember(problems, init, p);
    }
  }

  predicate PlainIds(runs: seq<Stored>) { forall s | s in runs :: Spaceless(s.run.id) }

  lemma PortableSpaceless(id: string)
    requires Portable(id)
    ensures Spaceless(id)
  {
    assert ' ' !in "._:/+@-";
  }

  lemma AcceptablePlain(runs: seq<Stored>)
    requires Acceptable(Map(RunOf, runs))
    ensures PlainIds(runs)
  {
    forall s | s in runs ensures Spaceless(s.run.id) {
      var k :| 0 <= k < |runs| && runs[k] == s;
      assert Map(RunOf, runs)[k] == s.run;
      PortableSpaceless(s.run.id);
    }
  }

  lemma InputOwn(s: Stored)
    requires Distinct(s.inputFields)
    ensures OwnProblems(InputProblems, s)
  {
    var ps := InputProblems(s);
    forall i, j | 0 <= i < j < |ps| ensures ps[i] != ps[j] {
      assert s.inputFields[i] != s.inputFields[j];
    }
  }

  lemma CoverageOwn(required: set<string>, s: Stored)
    ensures OwnProblems(CoverageOf(required), s)
  {
  }

  lemma ScanOwn(base: Stored, s: Stored)
    ensures OwnProblems(ScanOf(base), s)
  {
  }

  lemma AdapterOwn(s: Stored)
    ensures OwnProblems(AdapterProblems, s)
  {
    var names, id := Map(NameOf, s.adapters), s.run.id;
    var a := One(!s.adaptersValid, AdaptersInvalid(id));
    var b := One(!(s.expectedAdapters <= Elems(names)), AdaptersMissing(id));
    var c := One(!(Elems(names) <= s.expectedAdapters), AdaptersExtra(id));
    var d := One(Repeats(names), AdaptersDuplicated(id));
    assert AdapterProblems(s) == a + b + c + d;
    FourDistinct(a, b, c, d, id);
    hide AdapterProblems;
  }

  lemma FourDistinct(a: seq<Problem>, b: seq<Problem>, c: seq<Problem>, d: seq<Problem>, id: string)
    requires a <= [AdaptersInvalid(id)] && b <= [AdaptersMissing(id)] && c <= [AdaptersExtra(id)] &&
             d <= [AdaptersDuplicated(id)]
    ensures Distinct(a + b + c + d) && forall p | p in a + b + c + d :: About(p, id)
  {
    DistinctConcat(a, b);
    DistinctConcat(a + b, c);
    DistinctConcat(a + b + c, d);
  }

  lemma InputInOrder(text: Wording, runs: seq<Stored>)
    requires Worded(text) && PlainIds(runs) && DifferentRuns(runs) && forall s | s in runs :: Distinct(s.inputFields)
    ensures InOrder(text, SortText(text, Gather(InputProblems, runs)))
  {
    hide Gather, Worded;
    forall s | s in runs ensures OwnProblems(InputProblems, s) { InputOwn(s); }
    GatherDistinct(InputProblems, runs);
    var ps := Gather(InputProblems, runs);
    forall p | p in ps ensures InputShape(p) {
      var s := GatherMember(InputProblems, runs, p);
    }
    hide InputProblems;
    forall i, j | 0 <= i < j < |ps| ensures text(ps[i]) != text(ps[j]) {
      InputTexts(text, ps[i], ps[j]);
    }
    SortedInOrder(text, ps);
  }

  lemma CoverageInOrder(text: Wording, required: set<string>, runs: seq<Stored>)
    requires Worded(text) && PlainIds(runs) && DifferentRuns(runs)
    ensures InOrder(text, SortText(text, CoverageAll(required, runs)))
  {
    hide Gather, Worded;
    forall s | s in runs ensures OwnProblems(CoverageOf(required), s) { CoverageOwn(required, s); }
    GatherDistinct(CoverageOf(required), runs);
    DistinctConcat(Gather(CoverageOf(required), runs), if CoveredApart(runs) then [CoverageDiffers] else []);
    var ps := CoverageAll(required, runs);
    forall p | p in ps ensures CoverageRemark(p) || p.CoverageDiffers? {
      if p in Gather(CoverageOf(required), runs) {
        var s := GatherMember(CoverageOf(required), runs, p);
      }
    }
    hide CoverageAll, CoverageRemark;
    forall i, j | 0 <= i < j < |ps| ensures text(ps[i]) != text(ps[j]) {
      CoverageTexts(text, ps[i], ps[j]);
    }
    SortedInOrder(text, ps);
  }

  lemma ScannedDistinct(runs: seq<Stored>)
    requires DifferentRuns(runs) && |runs| >= 2
    ensures Distinct(Scanned(runs))
  {
    hide Gather;
    var rest := runs[1..];
    forall i, j | 0 <= i < j < |rest| ensures rest[i].run.id != rest[j].run.id {
      assert runs[i + 1].run.id != runs[j + 1].run.id;
    }
    forall s | s in rest ensures OwnProblems(ScanOf(runs[0]), s) { ScanOwn(runs[0], s); }
    GatherDistinct(ScanOf(runs[0]), rest);
  }

  lemma ScannedShape(runs: seq<Stored>, p: Problem)
    requires PlainIds(runs) && |runs| >= 2 && p in Scanned(runs)
    ensures ScanShape(runs[0].run.id, p)
  {
    var s := GatherMember(ScanOf(runs[0]), runs[1..], p);
    assert s in runs;
  }

  lemma ScannerInOrder(text: Wording, runs: seq<Stored>)
    requires Worded(text) && PlainIds(runs) && DifferentRuns(runs)
    ensures InOrder(text, SortText(text, Scanned(runs)))
  {
    var ps := Scanned(runs);
    if |runs| >= 2 {
      ScannedDistinct(runs);
      hide Scanned, ScanShape, Worded;
      forall i, j | 0 <= i < j < |ps| ensures text(ps[i]) != text(ps[j]) {
        ScannedShape(runs, ps[i]);
        ScannedShape(runs, ps[j]);
        ScanTexts(text, runs[0].run.id, ps[i], ps[j]);
      }
    }
    SortedInOrder(text, ps);
  }

  lemma NamesDistinct(crossRun: seq<Problem>, names: iset<string>)
    requires Reports(DivergingAdapter, crossRun, names)
    ensures Distinct(crossRun) && forall p | p in crossRun :: p.AdapterDiverges?
  {
    var ns :| crossRun == Map(DivergingAdapter, ns) && Ascending(StringLess, ns) && forall n :: n in ns <==> n in names;
    StringOrder();
    AscendingOrdered(StringLess, ns);
  }

  lemma AdapterShape(runs: seq<Stored>, p: Problem)
    requires PlainIds(runs) && p in Gather(AdapterProblems, runs)
    ensures AdapterRemark(p)
  {
    var s := GatherMember(AdapterProblems, runs, p);
    hide Gather, Repeats;
  }

  lemma AdapterInOrder(text: Wording, runs: seq<Stored>, list: seq<Problem>)
    requires Worded(text) && PlainIds(runs) && DifferentRuns(runs) && AdapterList(text, runs, list)
    ensures InOrder(text, list)
  {
    hide Gather, AdapterProblems, Reports, Worded, AdapterRemark;
    var crossRun :| Reports(DivergingAdapter, crossRun, DivergingNames(Evidence(runs)))
      && list == SortText(text, Gather(AdapterProblems, runs) + crossRun);
    var ps := Gather(AdapterProblems, runs) + crossRun;
    forall s | s in runs ensures OwnProblems(AdapterProblems, s) { AdapterOwn(s); }
    GatherDistinct(AdapterProblems, runs);
    NamesDistinct(crossRun, DivergingNames(Evidence(runs)));
    forall p | p in Gather(AdapterProblems, runs) ensures AdapterRemark(p) && !p.AdapterDiverges? {
      AdapterShape(runs, p);
      RemarkIsNotName(p);
    }
    DistinctConcat(Gather(AdapterProblems, runs), crossRun);
    forall i, j | 0 <= i < j < |ps| ensures text(ps[i]) != text(ps[j]) {
      AdapterTexts(text, ps[i], ps[j]);
    }
    SortedInOrder(text, ps);
  }

  lemma RemarkIsNotName(p: Problem)
    requires AdapterRemark(p)
    ensures !p.AdapterDiverges?
  {
  }

  lemma DiligenceDistinct(campaign: Campaign, runs: seq<Stored>, reviews: seq<seq<Review>>, ws: seq<Witness>)
    ensures Distinct(Diligence(campaign, runs, reviews, ws))
  {
    var a := One(|runs| < campaign.expectedRuns, TooFewRuns);
    var b := One(|runs| != |Elems(Map(AgentOf, runs))|, AgentReused);
    var c := One(exists s | s in runs :: !s.complete, Incomplete);
    var d := One(reviews == [], NoReviews);
    var e := One(|ws| < campaign.requiredWitnesses, TooFewWitnesses);
    var f := One(campaign.promotion && |Operators(ws)| < 2, TooFewOperators);
    assert Diligence(campaign, runs, reviews, ws) == a + b + c + d + (e + f);
    SixDistinct(a, b, c, d, e, f);
  }

  lemma SixDistinct(a: seq<Problem>, b: seq<Problem>, c: seq<Problem>, d: seq<Problem>, e: seq<Problem>,
      f: seq<Problem>)
    requires a <= [TooFewRuns] && b <= [AgentReused] && c <= [Incomplete] && d <= [NoReviews]
    requires e <= [TooFewWitnesses] && f <= [TooFewOperators]
    ensures Distinct(a + b + c + d + (e + f))
  {
    DistinctConcat(a, b);
    DistinctConcat(a + b, c);
    DistinctConcat(a + b + c, d);
    DistinctConcat(e, f);
    DistinctConcat(a + b + c + d, e + f);
  }

  lemma DiligenceInOrder(text: Wording, campaign: Campaign, runs: seq<Stored>, reviews: seq<seq<Review>>,
      ws: seq<Witness>)
    requires Worded(text)
    ensures InOrder(text, SortText(text, Diligence(campaign, runs, reviews, ws)))
  {
    var ps := Diligence(campaign, runs, reviews, ws);
    assert forall p | p in ps :: DiligenceShape(p);
    DiligenceDistinct(campaign, runs, reviews, ws);
    hide Diligence, DiligenceShape, Worded;
    forall i, j | 0 <= i < j < |ps| ensures text(ps[i]) != text(ps[j]) {
      DiligenceTexts(text, ps[i], ps[j]);
    }
    SortedInOrder(text, ps);
  }

  // ----- identifiers -----

  lemma UniqueAscending(xs: seq<string>)
    ensures Ascending(StringLess, SortUnique(StringLess, xs))
    ensures (SortUnique(StringLess, xs) == [] <==> xs == []) && |SortUnique(StringLess, xs)| <= |xs|
  {
    var r := SortUnique(StringLess, xs);
    StringOrder();
    SortUniqueSorts(StringLess, xs);
    ElemsEmpty(r);
    ElemsEmpty(xs);
    AscendingOrdered(StringLess, r);
    SizeMeansDistinct(r);
    SizeMeansDistinct(xs);
  }

  /** `sorted(xs)` is strictly ascending exactly when no value repeats. */
  lemma SortedExact(xs: seq<string>)
    ensures Ascending(StringLess, SortBy(StringLess, xs)) <==> Distinct(xs)
    ensures |SortBy(StringLess, xs)| == |xs|
  {
    StringOrder();
    TotalIsWeak(StringLess);
    SortBySorts(StringLess, xs);
    if Distinct(xs) {
      SortDistinct(StringLess, xs);
    }
    if Ascending(StringLess, SortBy(StringLess, xs)) {
      AscendingOrdered(StringLess, SortBy(StringLess, xs));
      SizeMeansDistinct(SortBy(StringLess, xs));
      SizeMeansDistinct(xs);
    }
  }

  lemma IdsOfRuns(runs: seq<Stored>)
    requires Distinct(Map(IdOf, Map(RunOf, runs)))
    ensures UniqueIds(Elems(Map(RunOf, runs)))
    ensures Image(IdOf, Elems(Map(RunOf, runs))) == Elems(Map(IdOfStored, runs))
  {
    var rs := Map(RunOf, runs);
    assert Map(IdOf, rs) == Map(IdOfStored, runs);
    MapElems(IdOf, rs);
    forall a, b | a in Elems(rs) && b in Elems(rs) && a.id == b.id ensures a == b {
      var i :| 0 <= i < |rs| && rs[i] == a;
      var j :| 0 <= j < |rs| && rs[j] == b;
      assert Map(IdOf, rs)[i] == Map(IdOf, rs)[j];
    }
  }

  lemma WitnessesReadable(campaign: Campaign, runs: seq<Stored>, reviews: seq<seq<Review>>, text: Wording, r: Record)
    requires Acceptable(Map(RunOf, runs)) && Compares(campaign, runs, reviews, text, r)
    ensures WitnessChecks(r)
  {
    hide Reports, AdapterList, Gather, Scanned, Diligence, Flat, SortUnique;
    var s, ids := Elems(Map(RunOf, runs)), Map(IdOfStored, runs);
    DistinctRuns(runs);
    IdsOfRuns(runs);
    CollapseReadable(s, r.witnesses);
    SameSorted(Flat(RunIdsOf, r.witnesses), ids);
  }

  lemma SameSorted(xs: seq<string>, ys: seq<string>)
    requires Distinct(xs) && Distinct(ys) && Elems(xs) == Elems(ys)
    ensures SortBy(StringLess, xs) == SortBy(StringLess, ys) && |xs| == |ys|
  {
    StringOrder();
    SortDistinct(StringLess, xs);
    SortDistinct(StringLess, ys);
    AscendingUnique(StringLess, SortBy(StringLess, xs), SortBy(StringLess, ys));
    SizeMeansDistinct(xs);
    SizeMeansDistinct(ys);
  }

  lemma RunsReadable(campaign: Campaign, runs: seq<Stored>, reviews: seq<seq<Review>>, text: Wording, r: Record)
    requires Acceptable(Map(RunOf, runs)) && Compares(campaign, runs, reviews, text, r)
    ensures RunChecks(r)
    ensures AttestationChecks(r) <==> Distinct(Map(AttestationOf, runs))
  {
    hide Reports, AdapterList, Gather, Scanned, Diligence, Collapses, SortUnique, SortBy, Flatten;
    DistinctRuns(runs);
    SortedExact(Map(IdOfStored, runs));
    SortedExact(Map(AttestationOf, runs));
    UniqueAscending(Map(AgentOf, runs));
    UniqueAscending(Map(ReportOf, runs));
    UniqueAscending(Map(DigestOf, Flatten(reviews)));
    assert Map(AgentOf, runs) == [] <==> runs == [];
    assert Map(ReportOf, runs) == [] <==> runs == [];
  }

  lemma ListsReadable(campaign: Campaign, runs: seq<Stored>, reviews: seq<seq<Review>>, text: Wording, r: Record)
    requires Worded(text) && Acceptable(Map(RunOf, runs)) && Compares(campaign, runs, reviews, text, r)
    requires forall s | s in runs :: Distinct(s.inputFields)
    ensures ListChecks(text, r)
  {
    hide Reports, AdapterList, Gather, Scanned, Diligence, Collapses, SortUnique, SortBy, Flatten, InOrder, Worded,
      Portable;
    DistinctRuns(runs);
    AcceptablePlain(runs);
    InputInOrder(text, runs);
    CoverageInOrder(text, campaign.requiredDomains, runs);
    ScannerInOrder(text, runs);
    AdapterInOrder(text, runs, r.adapter);
    DiligenceInOrder(text, campaign, runs, reviews, r.witnesses);
  }

  lemma RestReadable(campaign: Campaign, runs: seq<Stored>, reviews: seq<seq<Review>>, text: Wording, r: Record)
    requires Worded(text) && Acceptable(Map(RunOf, runs)) && Compares(campaign, runs, reviews, text, r)
    requires 1 <= campaign.requiredWitnesses <= campaign.expectedRuns && forall s | s in runs :: Distinct(s.inputFields)
    ensures Readable(text, r) <==>
            Distinct(Map(AttestationOf, runs)) && InOrder(text, r.review) && InOrder(text, r.priority)
  {
    WitnessesReadable(campaign, runs, reviews, text, r);
    RunsReadable(campaign, runs, reviews, text, r);
    ListsReadable(campaign, runs, reviews, text, r);
    hide Reports, AdapterList, Gather, Scanned, Diligence, Collapses, SortUnique, SortBy, Flatten, InOrder,
      WitnessChecks, RunChecks, AttestationChecks, ListChecks, Acceptable;
  }

  // ----- which inputs make a readable record -----

  /** The identifiers on which the reviews clash, in decision or in priority. */
  ghost predicate EasyNames(reviews: seq<Review>) {
    && (AllSeparable(DecisionClashes(reviews)) || OneLength(DecisionClashes(reviews)))
    && (AllSeparable(PriorityClashes(reviews)) || OneLength(PriorityClashes(reviews)))
  }

  /** The reader accepts what the comparison writes exactly when the attestation digests differ
      and the candidates on which reviews clash keep their order when each is followed by the
      separator of the message. */
  lemma ReadableExact(campaign: Campaign, runs: seq<Stored>, reviews: seq<seq<Review>>, text: Wording, r: Record)
    requires Worded(text) && Acceptable(Map(RunOf, runs)) && Compares(campaign, runs, reviews, text, r)
    requires 1 <= campaign.requiredWitnesses <= campaign.expectedRuns && forall s | s in runs :: Distinct(s.inputFields)
    requires EasyNames(Flatten(reviews))
    ensures Readable(text, r) <==>
            && Distinct(Map(AttestationOf, runs))
            && ClosedOrder(DecisionClashes(Flatten(reviews))) && ClosedOrder(PriorityClashes(Flatten(reviews)))
  {
    RestReadable(campaign, runs, reviews, text, r);
    ReviewsNameCandidates(text);
    ReviewOrderExact(text, ClashingDecision, r.review, DecisionClashes(Flatten(reviews)));
    ReviewOrderExact(text, ClashingPriority, r.priority, PriorityClashes(Flatten(reviews)));
  }

  lemma ClashesOneLength(reviews: seq<Review>)
    requires forall a, b | a in reviews && b in reviews :: |a.candidate| == |b.candidate|
    ensures EasyNames(reviews) && ClosedOrder(DecisionClashes(reviews)) && ClosedOrder(PriorityClashes(reviews))
  {
    hide Closed, Separable;
    OneLengthClosed(DecisionClashes(reviews));
    OneLengthClosed(PriorityClashes(reviews));
  }

  /** With candidate identifiers of one length and different attestation digests, every record
      the comparison writes passes every cross-field check of its reader. */
  lemma OneLengthReadable(campaign: Campaign, runs: seq<Stored>, reviews: seq<seq<Review>>, text: Wording, r: Record)
    requires Worded(text) && Acceptable(Map(RunOf, runs)) && Compares(campaign, runs, reviews, text, r)
    requires 1 <= campaign.requiredWitnesses <= campaign.expectedRuns && forall s | s in runs :: Distinct(s.inputFields)
    requires Distinct(Map(AttestationOf, runs))
    requires forall a, b | a in Flatten(reviews) && b in Flatten(reviews) :: |a.candidate| == |b.candidate|
    ensures Readable(text, r)
  {
    ClashesOneLength(Flatten(reviews));
    hide Worded, Acceptable, Compares, Readable, Flatten;
    ReadableExact(campaign, runs, reviews, text, r);
  }

  const CLASHES: seq<Review> := [
    Review("a", Valid, "p", "1"), Review("a", Invalid, "p", "2"),
    Review("a-b", Valid, "p", "3"), Review("a-b", Invalid, "p", "4")]

  /** Reviews whose record the reader refuses, whatever the campaign and the runs: "a" sorts
      before "a-b", but "a: " after "a-b: ". */
  lemma ClashesUnreadable(campaign: Campaign, runs: seq<Stored>, text: Wording, r: Record)
    requires Worded(text) && Acceptable(Map(RunOf, runs)) && Compares(campaign, runs, [CLASHES], text, r)
    requires 1 <= campaign.requiredWitnesses <= campaign.expectedRuns && forall s | s in runs :: Distinct(s.inputFields)
    ensures !Readable(text, r)
  {
    FlattenOne(CLASHES);
    ClashingNames();
    ExtensionBreaksOrder();
    hide Compares, Readable, Flatten, Acceptable, Worded;
    ReadableExact(campaign, runs, [CLASHES], text, r);
  }

  lemma FlattenOne(reviews: seq<Review>)
    ensures Flatten([reviews]) == reviews
  {
    assert [reviews][..0] == [];
  }

  lemma ClashesHere(reviews: seq<Review>, i: nat, j: nat)
    requires i < |reviews| && j < |reviews| && reviews[i].candidate == reviews[j].candidate
    requires reviews[i].decision == Valid && reviews[j].decision == Invalid
    ensures reviews[i].candidate in DecisionClashes(reviews)
  {
    assert reviews[i] in reviews && reviews[j] in reviews;
  }

  lemma NoPriorityClash(reviews: seq<Review>)
    requires forall r | r in reviews :: r.priority == "p"
    ensures PriorityClashes(reviews) == iset{}
  {
  }

  lemma OnlyTheirNames(reviews: seq<Review>, c: string)
    requires forall r | r in reviews :: r.candidate == "a" || r.candidate == "a-b"
    ensures c in DecisionClashes(reviews) ==> c == "a" || c == "a-b"
  {
  }

  lemma NamesSeparable()
    ensures Separable("a") && Separable("a-b")
  {
  }

  lemma ClashingNames()
    ensures "a" in DecisionClashes(CLASHES) && "a-b" in DecisionClashes(CLASHES) && EasyNames(CLASHES)
  {
    ClashesHere(CLASHES, 0, 1);
    ClashesHere(CLASHES, 2, 3);
    NoPriorityClash(CLASHES);
    NamesSeparable();
    hide DecisionClash, PriorityClash, Separable, CLASHES;
    forall c | c in DecisionClashes(CLASHES) ensures Separable(c) {
      OnlyTheirNames(CLASHES, c);
    }
  }

  lemma ExtensionBreaksOrder()
    ensures forall names: iset<string> | "a" in names && "a-b" in names :: !ClosedOrder(names)
  {
    var x, y := Closed("a"), Closed("a-b");
    assert x[1] == ':' && y[1] == '-' && y[..1] == x[..1];
    StringOrder();
    LexDiffer(CharLess, y, x, 1);
    assert "a" + "" == "a" && "a" + "-b" == "a-b";
    LexPrefix(CharLess, "a", "", "-b");
    assert StringLess("a", "a-b");
  }

  // ----- the reader, on any record -----

  ghost predicate NoneTwice<T(!new)>(f: Witness -> seq<T>, ws: seq<Witness>) {
    && (forall i | 0 <= i < |ws| :: Distinct(f(ws[i])))
    && forall i, j | 0 <= i < j < |ws| :: Apart(f, ws[i], ws[j])
  }

  lemma {:induction false} FlatDistinctExact<T(!new)>(f: Witness -> seq<T>, ws: seq<Witness>)
    ensures Distinct(Flat(f, ws)) <==> NoneTwice(f, ws)
  {
    if NoneTwice(f, ws) {
      FlatDistinct(f, ws);
    }
    if Distinct(Flat(f, ws)) && ws != [] {
      var init, last := ws[..|ws| - 1], ws[|ws| - 1];
      DistinctParts(Flat(f, init), f(last));
      FlatDistinctExact(f, init);
      forall i, j | 0 <= i < j < |ws| ensures Apart(f, ws[i], ws[j]) {
        if j == |ws| - 1 {
          forall x | x in f(ws[i]) ensures x !in f(last) {
            assert init[i] == ws[i];
            FlatMembers(f, init, x);
          }
        } else {
          assert Apart(f, init[i], init[j]);
        }
      }
      assert forall i | 0 <= i < |init| :: init[i] == ws[i];
    }
  }

  lemma DistinctParts<T>(a: seq<T>, b: seq<T>)
    requires Distinct(a + b)
    ensures Distinct(a) && Distinct(b) && forall x | x in a :: x !in b
  {
    var c := a + b;
    assert forall i | 0 <= i < |a| :: c[i] == a[i];
    assert forall i | 0 <= i < |b| :: c[|a| + i] == b[i];
    forall x | x in a ensures x !in b {
      var i :| 0 <= i < |a| && a[i] == x;
      forall j | 0 <= j < |b| ensures b[j] != x {
        assert c[i] != c[|a| + j];
      }
    }
  }

  /** Every run stands in exactly one witness, and every witness names runs of the record. */
  ghost predicate Partitions(r: Record) {
    && NoneTwice(RunIdsOf, r.witnesses)
    && forall id :: id in r.runIds <==> exists i :: 0 <= i < |r.witnesses| && id in r.witnesses[i].runIds
  }

  lemma PartitionExact(r: Record)
    requires Ascending(StringLess, r.runIds)
    ensures Distinct(Flat(RunIdsOf, r.witnesses)) && SortBy(StringLess, Flat(RunIdsOf, r.witnesses)) == r.runIds <==>
            Partitions(r)
  {
    var flat := Flat(RunIdsOf, r.witnesses);
    StringOrder();
    FlatDistinctExact(RunIdsOf, r.witnesses);
    forall id ensures id in flat <==> exists i :: 0 <= i < |r.witnesses| && id in r.witnesses[i].runIds {
      FlatMembers(RunIdsOf, r.witnesses, id);
    }
    hide Flat, NoneTwice;
    if Distinct(flat) {
      SortDistinct(StringLess, flat);
      if Elems(flat) == Elems(r.runIds) {
        AscendingUnique(StringLess, SortBy(StringLess, flat), r.runIds);
      }
      assert forall id :: (id in flat <==> id in Elems(flat)) && (id in r.runIds <==> id in Elems(r.runIds));
    }
  }

  ghost predicate Counts(r: Record) {
    && |r.runIds| == r.actualRuns && |r.attestations| == r.actualRuns && |r.witnesses| == r.actualWitnesses
    && |r.witnesses| <= |r.runIds| && |r.agents| <= |r.runIds| && |r.reports| <= |r.runIds|
    && (|r.runIds| > 0 ==> |r.agents| > 0 && |r.reports| > 0)
    && 1 <= r.requiredWitnesses <= r.expectedRuns
  }

  /** Which records are accepted, whoever wrote them: the counts agree, every list is strictly
      sorted, the witnesses share nothing and partition the runs, and both verdicts are those of
      the problem lists. */
  lemma ReaderExact(text: Wording, r: Record)
    ensures Readable(text, r) <==>
            && Counts(r) && Ascending(WitnessLess, r.witnesses) && Partitions(r)
            && NoneTwice(FamiliesOf, r.witnesses) && NoneTwice(ExactModelsOf, r.witnesses)
            && (forall list | list in [r.reviewDigests, r.reports, r.attestations, r.agents, r.runIds] ::
                  Ascending(StringLess, list))
            && (forall list | list in [r.diligence, r.priority, r.review, r.adapter, r.scanner, r.coverage, r.input] ::
                  InOrder(text, list))
            && (r.unresolved <==>
                  r.input + r.coverage + r.scanner + r.adapter + r.review + r.priority + r.diligence != [])
            && (r.eligible <==> r.promotion && !r.unresolved)
  {
    FlatDistinctExact(FamiliesOf, r.witnesses);
    FlatDistinctExact(ExactModelsOf, r.witnesses);
    FiveLists(r);
    SevenLists(text, r);
    hide Flat, NoneTwice, Partitions, WitnessLess, StringLess, InOrder, SortBy, Distinct, Ascending;
    if Ascending(StringLess, r.runIds) {
      PartitionExact(r);
    }
  }

  lemma FiveLists(r: Record)
    ensures (forall list | list in [r.reviewDigests, r.reports, r.attestations, r.agents, r.runIds] ::
               Ascending(StringLess, list)) <==>
            Ascending(StringLess, r.reviewDigests) && Ascending(StringLess, r.reports) &&
            Ascending(StringLess, r.attestations) && Ascending(StringLess, r.agents) && Ascending(StringLess, r.runIds)
  {
    var lists := [r.reviewDigests, r.reports, r.attestations, r.agents, r.runIds];
    assert lists[0] in lists && lists[1] in lists && lists[2] in lists && lists[3] in lists && lists[4] in lists;
    hide Ascending;
  }

  lemma SevenLists(text: Wording, r: Record)
    ensures (forall list | list in [r.diligence, r.priority, r.review, r.adapter, r.scanner, r.coverage, r.input] ::
               InOrder(text, list)) <==>
            InOrder(text, r.diligence) && InOrder(text, r.priority) && InOrder(text, r.review) &&
            InOrder(text, r.adapter) && InOrder(text, r.scanner) && InOrder(text, r.coverage) && InOrder(text, r.input)
  {
    var lists := [r.diligence, r.priority, r.review, r.adapter, r.scanner, r.coverage, r.input];
    assert lists[0] in lists && lists[1] in lists && lists[2] in lists && lists[3] in lists && lists[4] in lists;
    assert lists[5] in lists && lists[6] in lists;
    hide InOrder;
  }
}
