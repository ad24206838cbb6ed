/** The texts of the problems in a comparison record: how each begins, why the texts of one list
    differ, and when the texts of the review lists are in order. */
module CampaignWording {
  import opened Ordering
  import CampaignIdentity
  import opened CampaignCompare

  // ----- texts that differ before either ends -----

  /** Neither text begins with the other. */
  predicate Diverge(a: string, b: string) { !(a <= b) && !(b <= a) }

  lemma {:induction false} LexFirst(a: string, b: string) returns (k: nat)
    requires Diverge(a, b)
    ensures k < |a| && k < |b| && a[..k] == b[..k] && a[k] != b[k]
  {
    if a[0] != b[0] {
      k := 0;
    } else {
      assert a == [a[0]] + a[1..] && b == [b[0]] + b[1..];
      k := LexFirst(a[1..], b[1..]);
      assert a[..k + 1] == [a[0]] + a[1..][..k] && b[..k + 1] == [b[0]] + b[1..][..k];
      k := k + 1;
    }
  }

  /** Texts that differ before either ends stay different, and in order, however they go on. */
  lemma DivergeExtend(a: string, b: string, u: string, v: string)
    requires Diverge(a, b)
    ensures Diverge(a + u, b + v) && (StringLess(a + u, b + v) <==> StringLess(a, b))
  {
    var k := LexFirst(a, b);
    var x, y := a + u, b + v;
    assert x[..k] == a[..k] && y[..k] == b[..k] && x[k] != y[k];
    if a[k] < b[k] {
      LexDiffer(CharLess, a, b, k);
      LexDiffer(CharLess, x, y, k);
    } else {
      LexDiffer(CharLess, b, a, k);
      LexDiffer(CharLess, y, x, k);
    }
  }

  lemma DivergePrefixes(a: string, b: string, x: string, y: string)
    requires Diverge(a, b) && a <= x && b <= y
    ensures x != y && (StringLess(x, y) <==> StringLess(a, b))
  {
    DivergeExtend(a, b, x[|a|..], y[|b|..]);
    assert x == a + x[|a|..] && y == b + y[|b|..];
  }

  lemma PrefixBehind(p: string, a: string, b: string)
    ensures p + a <= p + b <==> a <= b
  {
    var x, y := p + a, p + b;
    assert x[|p|..] == a && y[|p|..] == b;
    if a <= b {
      assert y[..|x|] == x;
    }
    if x <= y {
      assert y[..|x|][|p|..] == b[..|a|];
    }
  }

  lemma DivergeBehind(p: string, a: string, b: string)
    requires Diverge(a, b)
    ensures Diverge(p + a, p + b)
  {
    PrefixBehind(p, a, b);
    PrefixBehind(p, b, a);
  }

  predicate Spaceless(s: string) { ' ' !in s }

  /** No ": " inside. */
  predicate Separable(s: string) { forall i | 0 <= i < |s| - 1 :: !(s[i] == ':' && s[i + 1] == ' ') }

  /** The identifier with the separator that follows it. */
  function Closed(s: string): string { s + ": " }

  lemma ClosedNotPrefix(c: string, d: string)
    requires c != d && (Separable(d) || |c| == |d|)
    ensures !(Closed(c) <= Closed(d))
  {
    var x, y := Closed(c), Closed(d);
    assert x[|c|] == ':' && x[|c| + 1] == ' ' && y[|d|] == ':' && y[|d| + 1] == ' ';
    if |c| < |d| {
      assert y[|c|] == d[|c|];
      assert |c| + 1 < |d| ==> y[|c| + 1] == d[|c| + 1];
    } else if |c| == |d| {
      assert x[..|c|] == c && y[..|d|] == d;
    }
  }

  lemma ClosedDiverge(c: string, d: string)
    requires c != d && ((Separable(c) && Separable(d)) || |c| == |d|)
    ensures Diverge(Closed(c), Closed(d))
  {
    ClosedNotPrefix(c, d);
    ClosedNotPrefix(d, c);
  }

  // ----- the wording -----

  function RunHead(run: string): string { "run " + Closed(run) }

  function ScanHead(base: string, run: string): string { ("runs " + base + "/") + Closed(run) }

  function CandidateHead(c: string): string { "candidate " + Closed(c) }

  /** A text of the coverage or adapter list that is about one run. */
  predicate AboutRun(p: Problem) {
    || p.OmitsRequired? || p.DeclaresOmitted?
    || p.AdaptersInvalid? || p.AdaptersMissing? || p.AdaptersExtra? || p.AdaptersDuplicated?
  }

  /** What such a text says about its run. */
  function Remark(p: Problem): string
    requires AboutRun(p)
  {
    match p
    case OmitsRequired(_) => "omitted required domains "
    case DeclaresOmitted(_) => "declared omitted domains "
    case AdaptersInvalid(_) => "adapter evidence "
    case AdaptersMissing(_) => "omitted native adapters "
    case AdaptersExtra(_) => "reported unexpected "
    case AdaptersDuplicated(_) => "duplicated native adapters "
  }

  /** What the text of a problem begins with. */
  function Lead(p: Problem): string {
    match p
    case InputDiffers(run, field) => RunHead(run) + (field + " differs from campaign contract")
    case OmitsRequired(run) => RunHead(run) + Remark(p)
    case DeclaresOmitted(run) => RunHead(run) + Remark(p)
    case CoverageDiffers => "independent runs covered "
    case CandidatesDiffer(base, run) => ScanHead(base, run) + "candidate sets differ; "
    case ReportDiffers(base, run) => ScanHead(base, run) + "candidate sets match "
    case AdaptersInvalid(run) => RunHead(run) + Remark(p)
    case AdaptersMissing(run) => RunHead(run) + Remark(p)
    case AdaptersExtra(run) => RunHead(run) + Remark(p)
    case AdaptersDuplicated(run) => RunHead(run) + Remark(p)
    case AdapterDiverges(name) => "native adapter " + (name + " produced divergent execution/status/output evidence")
    case DecisionsDiffer(c) => CandidateHead(c) + "decisions differ ("
    case PrioritiesDiffer(c) => CandidateHead(c) + "severity, owner, or acceptance gates differ"
    case TooFewRuns => "expected "
    case AgentReused => "multiple runs "
    case Incomplete => "one or more runs "
    case NoReviews => "no independent review "
    case TooFewWitnesses => "expected "
    case TooFewOperators => "promotion requires "
  }

  /** The texts the comparison writes. What follows the lead (domain names, counts, messages of
      other checks) is left open; an input problem and a diverging adapter are their lead. */
  ghost predicate Worded(text: Wording) {
    && (forall p :: Lead(p) <= text(p))
    && (forall p: Problem | p.InputDiffers? || p.AdapterDiverges? :: text(p) == Lead(p))
    && Counted(text(TooFewRuns), " runs, found ")
    && Counted(text(TooFewWitnesses), " model-family witnesses, found ")
  }

  /** `expected <number><noun>...` */
  ghost predicate Counted(t: string, noun: string) {
    exists n :: Spaceless(n) && "expected " + (n + noun) <= t
  }

  /** The first character of the texts that begin with a fixed word. */
  function Initial(p: Problem): char
    requires FixedWord(p)
  {
    if AboutRun(p) then 'r'
    else
      match p
      case CoverageDiffers => 'i'
      case AdapterDiverges(_) => 'n'
      case TooFewRuns => 'e'
      case TooFewWitnesses => 'e'
      case AgentReused => 'm'
      case Incomplete => 'o'
      case NoReviews => 'n'
      case TooFewOperators => 'p'
  }

  predicate FixedWord(p: Problem) {
    AboutRun(p) || p.CoverageDiffers? || p.AdapterDiverges? || DiligenceShape(p)
  }

  predicate DiligenceShape(p: Problem) {
    p.TooFewRuns? || p.AgentReused? || p.Incomplete? || p.NoReviews? || p.TooFewWitnesses? || p.TooFewOperators?
  }

  lemma FirstOfConcat(a: string, b: string)
    requires a != ""
    ensures (a + b) != "" && (a + b)[0] == a[0]
  {
  }

  lemma InitialOf(p: Problem)
    requires FixedWord(p)
    ensures Lead(p) != "" && Lead(p)[0] == Initial(p)
  {
    if AboutRun(p) {
      hide Remark;
      FirstOfConcat("run ", Closed(p.run));
      FirstOfConcat(RunHead(p.run), Remark(p));
    } else if p.AdapterDiverges? {
      FirstOfConcat("native adapter ", p.name + " produced divergent execution/status/output evidence");
    }
  }

  lemma InitialsDiverge(p: Problem, q: Problem)
    requires FixedWord(p) && FixedWord(q) && Initial(p) != Initial(q)
    ensures Diverge(Lead(p), Lead(q))
  {
    InitialOf(p);
    InitialOf(q);
    hide Lead, Initial;
  }

  lemma RunHeadsDiverge(a: string, b: string)
    requires a != b && Spaceless(a) && Spaceless(b)
    ensures Diverge(RunHead(a), RunHead(b))
  {
    ClosedDiverge(a, b);
    DivergeBehind("run ", Closed(a), Closed(b));
  }

  lemma LeadsDiffer(text: Wording, p: Problem, q: Problem)
    requires Worded(text) && Diverge(Lead(p), Lead(q))
    ensures text(p) != text(q)
  {
    assert Lead(p) <= text(p) && Lead(q) <= text(q);
    DivergePrefixes(Lead(p), Lead(q), text(p), text(q));
  }

  // ----- input list -----

  predicate InputShape(p: Problem) { p.InputDiffers? && Spaceless(p.run) }

  lemma Cancel(p: string, a: string, b: string, u: string)
    requires a != b
    ensures p + (a + u) != p + (b + u)
  {
    var x, y := p + (a + u), p + (b + u);
    assert x[|p|..] == a + u && y[|p|..] == b + u;
    if |a| == |b| {
      assert (a + u)[..|a|] == a && (b + u)[..|b|] == b;
    }
  }

  lemma InputTexts(text: Wording, p: Problem, q: Problem)
    requires Worded(text) && InputShape(p) && InputShape(q) && p != q
    ensures text(p) != text(q)
  {
    var end := " differs from campaign contract";
    assert text(p) == Lead(p) && text(q) == Lead(q);
    if p.run == q.run {
      Cancel(RunHead(p.run), p.field, q.field, end);
    } else {
      RunHeadsDiverge(p.run, q.run);
      DivergeExtend(RunHead(p.run), RunHead(q.run), p.field + end, q.field + end);
    }
  }

  // ----- coverage and adapter lists -----

  predicate CoverageRemark(p: Problem) { (p.OmitsRequired? || p.DeclaresOmitted?) && Spaceless(p.run) }

  predicate AdapterRemark(p: Problem) {
    (p.AdaptersInvalid? || p.AdaptersMissing? || p.AdaptersExtra? || p.AdaptersDuplicated?) && Spaceless(p.run)
  }

  lemma LeadOfRemark(p: Problem)
    requires AboutRun(p)
    ensures Lead(p) == RunHead(p.run) + Remark(p)
  {
    hide Remark;
  }

  lemma RemarksDiverge(p: Problem, q: Problem)
    requires (CoverageRemark(p) && CoverageRemark(q)) || (AdapterRemark(p) && AdapterRemark(q))
    requires p != q && p.run == q.run
    ensures Diverge(Remark(p), Remark(q))
  {
    assert Remark(p)[0] != Remark(q)[0];
  }

  lemma RemarkTexts(text: Wording, p: Problem, q: Problem)
    requires (CoverageRemark(p) && CoverageRemark(q)) || (AdapterRemark(p) && AdapterRemark(q))
    requires Worded(text) && p != q
    ensures text(p) != text(q)
  {
    LeadOfRemark(p);
    LeadOfRemark(q);
    if p.run == q.run {
      RemarksDiverge(p, q);
      hide Remark, Lead, Worded, Diverge;
      DivergeBehind(RunHead(p.run), Remark(p), Remark(q));
    } else {
      RunHeadsDiverge(p.run, q.run);
      hide Remark, Lead, Worded, Diverge;
      DivergeExtend(RunHead(p.run), RunHead(q.run), Remark(p), Remark(q));
    }
    LeadsDiffer(text, p, q);
  }

  lemma CoverageTexts(text: Wording, p: Problem, q: Problem)
    requires Worded(text) && p != q
    requires (CoverageRemark(p) || p.CoverageDiffers?) && (CoverageRemark(q) || q.CoverageDiffers?)
    ensures text(p) != text(q)
  {
    if CoverageRemark(p) && CoverageRemark(q) {
      RemarkTexts(text, p, q);
    } else {
      InitialsDiverge(p, q);
      LeadsDiffer(text, p, q);
    }
  }

  lemma AdapterTexts(text: Wording, p: Problem, q: Problem)
    requires Worded(text) && p != q
    requires (AdapterRemark(p) || p.AdapterDiverges?) && (AdapterRemark(q) || q.AdapterDiverges?)
    ensures text(p) != text(q)
  {
    if AdapterRemark(p) && AdapterRemark(q) {
      RemarkTexts(text, p, q);
    } else if p.AdapterDiverges? && q.AdapterDiverges? {
      assert text(p) == Lead(p) && text(q) == Lead(q);
      Cancel("native adapter ", p.name, q.name, " produced divergent execution/status/output evidence");
    } else {
      InitialsDiverge(p, q);
      LeadsDiffer(text, p, q);
    }
  }

  // ----- scanner list -----

  predicate ScanShape(base: string, p: Problem) {
    (p.CandidatesDiffer? || p.ReportDiffers?) && p.base == base && Spaceless(p.run)
  }

  function ScanRemark(p: Problem): string
    requires p.CandidatesDiffer? || p.ReportDiffers?
  {
    if p.CandidatesDiffer? then "candidate sets differ; " else "candidate sets match "
  }

  lemma ScanRemarksDiverge()
    ensures Diverge("candidate sets differ; ", "candidate sets match ")
  {
    assert "candidate sets differ; "[15] == 'd' && "candidate sets match "[15] == 'm';
  }

  lemma ScanTexts(text: Wording, base: string, p: Problem, q: Problem)
    requires Worded(text) && ScanShape(base, p) && ScanShape(base, q) && p != q
    ensures text(p) != text(q)
  {
    var head := "runs " + base + "/";
    assert Lead(p) == ScanHead(base, p.run) + ScanRemark(p) && Lead(q) == ScanHead(base, q.run) + ScanRemark(q);
    if p.run == q.run {
      ScanRemarksDiverge();
      DivergeBehind(ScanHead(base, p.run), ScanRemark(p), ScanRemark(q));
    } else {
      ClosedDiverge(p.run, q.run);
      DivergeBehind(head, Closed(p.run), Closed(q.run));
      DivergeExtend(ScanHead(base, p.run), ScanHead(base, q.run), ScanRemark(p), ScanRemark(q));
    }
    LeadsDiffer(text, p, q);
  }

  // ----- diligence list -----

  lemma CountsDiffer(n: string, m: string, t: string, w: string)
    requires Spaceless(n) && Spaceless(m)
    requires "expected " + (n + " runs, found ") <= t && "expected " + (m + " model-family witnesses, found ") <= w
    ensures t != w
  {
    var a, b := n + " runs, found ", m + " model-family witnesses, found ";
    assert a[|n|] == ' ' && a[|n| + 1] == 'r' && b[|m|] == ' ' && b[|m| + 1] == 'm';
    assert Diverge(a, b) by {
      if |n| < |m| {
        assert b[|n|] == m[|n|];
      } else if |m| < |n| {
        assert a[|m|] == n[|m|];
      }
    }
    DivergeBehind("expected ", a, b);
    DivergePrefixes("expected " + a, "expected " + b, t, w);
  }

  lemma ExpectedTexts(text: Wording)
    requires Worded(text)
    ensures text(TooFewRuns) != text(TooFewWitnesses)
  {
    var n :| Spaceless(n) && "expected " + (n + " runs, found ") <= text(TooFewRuns);
    var m :| Spaceless(m) && "expected " + (m + " model-family witnesses, found ") <= text(TooFewWitnesses);
    CountsDiffer(n, m, text(TooFewRuns), text(TooFewWitnesses));
  }

  lemma DiligenceTexts(text: Wording, p: Problem, q: Problem)
    requires Worded(text) && DiligenceShape(p) && DiligenceShape(q) && p != q
    ensures text(p) != text(q)
  {
    hide Lead;
    if Initial(p) == Initial(q) {
      assert {p, q} == {TooFewRuns, TooFewWitnesses};
      ExpectedTexts(text);
    } else {
      InitialsDiverge(p, q);
      LeadsDiffer(text, p, q);
    }
  }

  // ----- review lists -----

  /** The two review lists: a subject whose texts begin with the candidate. */
  ghost predicate NamesCandidate(text: Wording, subject: string -> Problem) {
    forall c {:trigger subject(c)} :: CandidateHead(c) <= text(subject(c))
  }

  lemma ReviewsNameCandidates(text: Wording)
    requires Worded(text)
    ensures NamesCandidate(text, ClashingDecision) && NamesCandidate(text, ClashingPriority)
  {
    forall c ensures CandidateHead(c) <= text(ClashingDecision(c)) && CandidateHead(c) <= text(ClashingPriority(c)) {
      LongerPrefix(CandidateHead(c), "decisions differ (", text(DecisionsDiffer(c)));
      LongerPrefix(CandidateHead(c), "severity, owner, or acceptance gates differ", text(PrioritiesDiffer(c)));
    }
  }

  lemma LongerPrefix(a: string, b: string, t: string)
    requires a + b <= t
    ensures a <= t
  {
    assert (a + b)[..|a|] == a;
  }

  /** Two candidates' texts compare like the candidates, each with its separator. */
  lemma CandidateOrder(text: Wording, subject: string -> Problem, c: string, d: string)
    requires NamesCandidate(text, subject) && c != d && ((Separable(c) && Separable(d)) || |c| == |d|)
    ensures ByText(text)(subject(c), subject(d)) <==> StringLess(Closed(c), Closed(d))
  {
    ClosedDiverge(c, d);
    DivergeBehind("candidate ", Closed(c), Closed(d));
    assert CandidateHead(c) <= text(subject(c)) && CandidateHead(d) <= text(subject(d));
    DivergePrefixes(CandidateHead(c), CandidateHead(d), text(subject(c)), text(subject(d)));
    LexPrefix(CharLess, "candidate ", Closed(c), Closed(d));
  }

  /** The names keep their order when each is closed by its separator. */
  ghost predicate ClosedOrder(names: iset<string>) {
    forall c, d | c in names && d in names && StringLess(c, d) :: StringLess(Closed(c), Closed(d))
  }

  ghost predicate AllSeparable(names: iset<string>) {
    forall c | c in names :: Separable(c)
  }

  ghost predicate OneLength(names: iset<string>) {
    forall c, d | c in names && d in names :: |c| == |d|
  }

  lemma LessIsBefore(ns: seq<string>, i: nat, j: nat)
    requires Ascending(StringLess, ns) && i < |ns| && j < |ns| && StringLess(ns[i], ns[j])
    ensures i < j
  {
    StringOrder();
  }

  /** Pair by pair, the texts compare like the closed names. */
  lemma PairOrders(text: Wording, subject: string -> Problem, ns: seq<string>, names: iset<string>, i: nat, j: nat)
    requires NamesCandidate(text, subject) && Ascending(StringLess, ns) && (AllSeparable(names) || OneLength(names))
    requires i < j < |ns| && ns[i] in names && ns[j] in names
    ensures ByText(text)(subject(ns[i]), subject(ns[j])) <==> StringLess(Closed(ns[i]), Closed(ns[j]))
  {
    StringOrder();
    assert StringLess(ns[i], ns[j]);
    CandidateOrder(text, subject, ns[i], ns[j]);
  }

  /** A review list is in the order of its texts exactly when its names keep their order closed. */
  lemma ReviewOrderExact(text: Wording, subject: string -> Problem, list: seq<Problem>, names: iset<string>)
    requires NamesCandidate(text, subject) && Reports(subject, list, names) && (AllSeparable(names) || OneLength(names))
    ensures Ascending(ByText(text), list) <==> ClosedOrder(names)
  {
    hide StringLess, NamesCandidate, AllSeparable, OneLength, Closed;
    var ns :| list == CampaignIdentity.Map(subject, ns) && Ascending(StringLess, ns) &&
      forall n :: n in ns <==> n in names;
    forall i, j | 0 <= i < j < |ns|
      ensures ByText(text)(list[i], list[j]) <==> StringLess(Closed(ns[i]), Closed(ns[j]))
    {
      PairOrders(text, subject, ns, names, i, j);
    }
    if Ascending(ByText(text), list) {
      forall c, d | c in names && d in names && StringLess(c, d) ensures StringLess(Closed(c), Closed(d)) {
        var i :| 0 <= i < |ns| && ns[i] == c;
        var j :| 0 <= j < |ns| && ns[j] == d;
        LessIsBefore(ns, i, j);
        assert ByText(text)(list[i], list[j]);
      }
    }
    if ClosedOrder(names) {
      forall i, j | 0 <= i < j < |list| ensures ByText(text)(list[i], list[j]) {
        assert ns[i] in names && ns[j] in names && StringLess(ns[i], ns[j]);
      }
    }
  }

  /** Names of one length, such as digests, keep their order. */
  lemma OneLengthClosed(names: iset<string>)
    requires OneLength(names)
    ensures ClosedOrder(names)
  {
    StringOrder();
    forall c, d | c in names && d in names && StringLess(c, d) ensures StringLess(Closed(c), Closed(d)) {
      SameLengthDiverge(c, d);
      DivergeExtend(c, d, ": ", ": ");
    }
  }

  lemma SameLengthDiverge(c: string, d: string)
    requires |c| == |d| && c != d
    ensures Diverge(c, d)
  {
    assert c == c[..|c|] && d == d[..|d|];
  }

  // ----- a wording exists -----

  function Plain(p: Problem): string {
    if p.TooFewRuns? then "expected " + ("0" + " runs, found ")
    else if p.TooFewWitnesses? then "expected " + ("0" + " model-family witnesses, found ")
    else Lead(p)
  }

  lemma PlainWorded()
    ensures Worded(Plain)
  {
    hide Closed, Remark;
    assert Spaceless("0");
  }
}
