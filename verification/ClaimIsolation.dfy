/** Execution claims, their admission, and what every run of admissions, completions,
    cancellations, roll-backs and clock advances keeps. */
module ClaimIsolation {
  import opened Prelude
  import opened Ordering
  import opened Graphs
  import opened PosixPath
  import opened Text
  import opened RemediationGraph

  datatype Status = Active | Completed | Cancelled | RolledBack

  /** Instants are integers; the claim digest is a function of the other fields. */
  datatype Claim = Claim(
    id: string, repository: string, campaign: string, lane: string, claimant: string,
    writeSet: seq<string>, keys: seq<string>, prerequisites: seq<string>,
    claimedAt: int, expiresAt: int, status: Status)

  predicate Blank(s: string) {
    forall c | c in s :: c in " \t\n\r"
  }

  /** `validate_unique_strings` */
  predicate UniqueStrings(xs: seq<string>) {
    (forall x | x in xs :: !Blank(x)) && forall i, j | 0 <= i < j < |xs| :: xs[i] != xs[j]
  }

  predicate RelativePath(s: string) {
    !Absolute(s) && ".." !in Parse(s).segments
  }

  /** The checks of `ExecutionClaim.build` on paths, prerequisites and times. */
  predicate WellBuilt(c: Claim) {
    && UniqueStrings(c.prerequisites) && c.id !in c.prerequisites
    && c.claimedAt < c.expiresAt
    && c.writeSet != [] && UniqueStrings(c.writeSet) && (forall p | p in c.writeSet :: RelativePath(p))
    && UniqueStrings(c.keys)
  }

  predicate HoldsAt(c: Claim, now: int) {
    c.status.Active? && now < c.expiresAt
  }

  /** `_transition`: only an active claim moves, and only its status changes. */
  function Transition(c: Claim, status: Status): Result<Claim> {
    if c.status.Active? && WellBuilt(c) then Ok(c.(status := status)) else Err
  }

  // ----- the isolation check -----

  function Holding(claims: seq<Claim>, now: int): seq<Claim> {
    if claims == [] then []
    else (if HoldsAt(claims[0], now) then [claims[0]] else []) + Holding(claims[1..], now)
  }

  function InRepository(claims: seq<Claim>, repository: string): seq<Claim> {
    if claims == [] then []
    else (if claims[0].repository == repository then [claims[0]] else []) + InRepository(claims[1..], repository)
  }

  predicate Compatible(a: Claim, b: Claim) {
    !PathsOverlap(a.writeSet, b.writeSet) && forall k | k in a.keys :: k !in b.keys
  }

  predicate DifferentIds(claims: seq<Claim>) {
    forall i, j | 0 <= i < j < |claims| :: claims[i].id != claims[j].id
  }

  function Ids(group: seq<Claim>): set<string> {
    set c | c in group :: c.id
  }

  /** `edges[claim.claim_id] = claim.prerequisite_claim_ids` for each claim in turn. */
  function Edges(group: seq<Claim>): Graph {
    if group == [] then map[]
    else Edges(group[..|group| - 1])[group[|group| - 1].id := group[|group| - 1].prerequisites]
  }

  predicate PairwiseCompatible(group: seq<Claim>) {
    forall i, j | 0 <= i < j < |group| :: Compatible(group[i], group[j])
  }

  predicate PrerequisitesPresent(group: seq<Claim>) {
    forall c, p | c in group && p in c.prerequisites :: p in Ids(group)
  }

  ghost predicate GroupIsolated(group: seq<Claim>) {
    PairwiseCompatible(group) && PrerequisitesPresent(group) && !Cyclic(Edges(group))
  }

  ghost predicate Isolated(claims: seq<Claim>, now: int) {
    var holding := Holding(claims, now);
    && DifferentIds(holding) && (forall c | c in holding :: !Blank(c.id))
    && forall r :: RepositoryIsolated(holding, r)
  }

  ghost predicate RepositoryIsolated(holding: seq<Claim>, r: string) {
    GroupIsolated(InRepository(holding, r))
  }

  ghost predicate RepositoryCompatible(holding: seq<Claim>, r: string) {
    PairwiseCompatible(InRepository(holding, r))
  }

  ghost predicate RepositoryPresent(holding: seq<Claim>, r: string) {
    PrerequisitesPresent(InRepository(holding, r))
  }

  ghost predicate RepositoryCyclic(holding: seq<Claim>, r: string) {
    Cyclic(Edges(InRepository(holding, r)))
  }

  lemma {:induction false} EdgeKeys(group: seq<Claim>)
    ensures Edges(group).Keys == Ids(group)
  {
    if group != [] {
      var init, last := group[..|group| - 1], group[|group| - 1];
      EdgeKeys(init);
      assert group == init + [last];
      assert Ids(group) == Ids(init) + {last.id};
    }
  }

  lemma {:induction false} EdgeOf(group: seq<Claim>, c: Claim)
    requires DifferentIds(group) && c in group
    ensures c.id in Edges(group) && Edges(group)[c.id] == c.prerequisites
  {
    var init, last := group[..|group| - 1], group[|group| - 1];
    assert group == init + [last];
    if c != last {
      EdgeOf(init, c);
      assert c.id != last.id;
    }
  }

  lemma EdgeIsPrerequisite(group: seq<Claim>, k: string) returns (c: Claim)
    requires DifferentIds(group) && k in Edges(group)
    ensures c in group && c.id == k && Edges(group)[k] == c.prerequisites
  {
    EdgeKeys(group);
    c :| c in group && c.id == k;
    EdgeOf(group, c);
  }

  lemma TargetsPresent(group: seq<Claim>)
    requires DifferentIds(group)
    ensures PrerequisitesPresent(group) <==> Targets(Edges(group)) <= Ids(group)
  {
    forall k, t | k in Edges(group) && t in Edges(group)[k] && PrerequisitesPresent(group) ensures t in Ids(group) {
      var c := EdgeIsPrerequisite(group, k);
    }
    forall c, p | c in group && p in c.prerequisites && Targets(Edges(group)) <= Ids(group) ensures p in Ids(group) {
      EdgeOf(group, c);
      assert p in Targets(Edges(group));
    }
  }

  /** `for left, right in combinations(group, 2)`. */
  method PairsCompatible(group: seq<Claim>) returns (ok: bool)
    ensures ok <==> PairwiseCompatible(group)
  {
    for i := 0 to |group|
      invariant forall k, l | 0 <= k < i && k < l < |group| :: Compatible(group[k], group[l])
    {
      for j := i + 1 to |group|
        invariant forall l | i < l < j :: Compatible(group[i], group[l])
      {
        if !Compatible(group[i], group[j]) {
          return false;
        }
      }
    }
    return true;
  }

  /** `_assert_group_isolated`. */
  method AssertGroupIsolated(group: seq<Claim>) returns (ok: bool)
    requires DifferentIds(group)
    ensures ok <==> GroupIsolated(group)
  {
    var compatible := PairsCompatible(group);
    if !compatible {
      return false;
    }
    var present := Ids(group);
    var edges: Graph := map[];
    for i := 0 to |group|
      invariant edges == Edges(group[..i])
      invariant forall k, p | 0 <= k < i && p in group[k].prerequisites :: p in present
    {
      if p :| p in group[i].prerequisites && p !in present {
        assert group[i] in group;
        return false;
      }
      edges := edges[group[i].id := group[i].prerequisites];
      assert group[..i + 1][..i] == group[..i];
    }
    assert group[..|group|] == group;
    EdgeKeys(group);
    TargetsPresent(group);
    var verdict := AssertDag(present, edges);
    return verdict.Accepted?;
  }

  /** `by_repository.setdefault(claim.repository_id, []).append(claim)`. */
  method GroupByRepository(holding: seq<Claim>) returns (byRepository: map<string, seq<Claim>>)
    ensures forall r | r in byRepository :: byRepository[r] == InRepository(holding, r)
    ensures forall r | r !in byRepository :: InRepository(holding, r) == []
  {
    byRepository := map[];
    for i := 0 to |holding|
      invariant forall r | r in byRepository :: byRepository[r] == InRepository(holding[..i], r)
      invariant forall r | r !in byRepository :: InRepository(holding[..i], r) == []
    {
      var c := holding[i];
      forall r ensures InRepository(holding[..i + 1], r) ==
                       InRepository(holding[..i], r) + if c.repository == r then [c] else []
      {
        assert holding[..i + 1] == holding[..i] + [c];
        InRepositoryAppend(holding[..i], c, r);
      }
      var group := if c.repository in byRepository then byRepository[c.repository] else [];
      byRepository := byRepository[c.repository := group + [c]];
    }
    assert holding[..|holding|] == holding;
  }

  /** `assert_claim_isolation`: grouping by repository in a dict, then one check per group. */
  method AssertClaimIsolation(claims: seq<Claim>, now: int) returns (ok: bool)
    ensures ok <==> Isolated(claims, now)
  {
    hide GroupIsolated;
    var holding := Holding(claims, now);
    if !DifferentIds(holding) || exists c | c in holding :: Blank(c.id) {
      return false;
    }
    var byRepository := GroupByRepository(holding);
    var rest := byRepository.Keys;
    while rest != {}
      invariant rest <= byRepository.Keys
      invariant forall r | r in byRepository && r !in rest :: GroupIsolated(byRepository[r])
    {
      var r :| r in rest;
      GroupDifferentIds(holding, r);
      var isolated := AssertGroupIsolated(byRepository[r]);
      if !isolated {
        assert !RepositoryIsolated(holding, r);
        return false;
      }
      rest := rest - {r};
    }
    EmptyGroup();
    return true;
  }

  /** `admit_claim`: the candidate must be active and isolated from the claims that hold now. */
  method AdmitClaim(active: seq<Claim>, candidate: Claim, now: int) returns (admitted: Result<seq<Claim>>)
    ensures admitted.Ok? <==> candidate.status.Active? && Isolated(active + [candidate], now)
    ensures admitted.Ok? ==> admitted.value == active + [candidate]
  {
    if !candidate.status.Active? {
      return Err;
    }
    var combined := active + [candidate];
    var isolated := AssertClaimIsolation(combined, now);
    return if isolated then Ok(combined) else Err;
  }

  lemma EmptyGroup()
    ensures GroupIsolated([])
  {
    forall v ensures !OnCycle(Edges([]), v) {
      if OnCycle(Edges([]), v) {
        OnCycleIsTarget(Edges([]), v);
      }
    }
  }

  lemma {:induction false} InRepositoryAppend(claims: seq<Claim>, c: Claim, r: string)
    ensures InRepository(claims + [c], r) == InRepository(claims, r) + if c.repository == r then [c] else []
  {
    if claims == [] {
      assert [c][1..] == [];
    } else {
      InRepositoryAppend(claims[1..], c, r);
      assert (claims + [c])[1..] == claims[1..] + [c];
    }
  }

  lemma {:induction false} InRepositoryMembers(claims: seq<Claim>, r: string, c: Claim)
    ensures c in InRepository(claims, r) <==> c in claims && c.repository == r
  {
    if claims != [] {
      InRepositoryMembers(claims[1..], r, c);
      assert claims == [claims[0]] + claims[1..];
    }
  }

  lemma {:induction false} GroupDifferentIds(claims: seq<Claim>, r: string)
    requires DifferentIds(claims)
    ensures DifferentIds(InRepository(claims, r))
  {
    if claims != [] {
      GroupDifferentIds(claims[1..], r);
      var g := InRepository(claims, r);
      var t := InRepository(claims[1..], r);
      forall i, j | 0 <= i < j < |g| ensures g[i].id != g[j].id {
        if claims[0].repository == r && i == 0 {
          assert t[j - 1] in t;
          InRepositoryMembers(claims[1..], r, t[j - 1]);
          var k :| 0 <= k < |claims[1..]| && claims[1..][k] == t[j - 1];
          assert claims[0].id != claims[k + 1].id;
        }
      }
    }
  }

  // ----- what is safe -----

  ghost predicate ActiveTwins(claims: seq<Claim>, now: int, i: int, j: int) {
    0 <= i < j < |claims| && HoldsAt(claims[i], now) && HoldsAt(claims[j], now)
  }

  ghost predicate TwinsDiffer(claims: seq<Claim>, now: int) {
    forall i, j | ActiveTwins(claims, now, i, j) ::
      && claims[i].id != claims[j].id
      && (claims[i].repository == claims[j].repository ==> Compatible(claims[i], claims[j]))
  }

  /** Holding claims have different identifiers; in one repository they share no path and no
      serialization key, and their prerequisite relation is acyclic. */
  ghost predicate Safe(claims: seq<Claim>, now: int) {
    && TwinsDiffer(claims, now)
    && forall r :: !RepositoryCyclic(Holding(claims, now), r)
  }

  /** Every prerequisite of a holding claim is itself held, in the same repository. */
  ghost predicate AllPresent(claims: seq<Claim>, now: int) {
    forall r :: RepositoryPresent(Holding(claims, now), r)
  }

  lemma {:induction false} HoldingMembers(claims: seq<Claim>, now: int, c: Claim)
    ensures c in Holding(claims, now) <==> c in claims && HoldsAt(c, now)
  {
    if claims != [] {
      HoldingMembers(claims[1..], now, c);
      assert claims == [claims[0]] + claims[1..];
    }
  }

  ghost predicate PairHolds(claims: seq<Claim>, now: int, rel: (Claim, Claim) -> bool) {
    forall i, j | ActiveTwins(claims, now, i, j) :: rel(claims[i], claims[j])
  }

  ghost predicate PairAll(xs: seq<Claim>, rel: (Claim, Claim) -> bool) {
    forall i, j | 0 <= i < j < |xs| :: rel(xs[i], xs[j])
  }

  lemma PairAllCons(x: Claim, xs: seq<Claim>, rel: (Claim, Claim) -> bool)
    ensures PairAll([x] + xs, rel) <==> PairAll(xs, rel) && forall c | c in xs :: rel(x, c)
  {
    var ys := [x] + xs;
    if PairAll(ys, rel) {
      forall i, j | 0 <= i < j < |xs| ensures rel(xs[i], xs[j]) {
        assert rel(ys[i + 1], ys[j + 1]);
      }
      forall c | c in xs ensures rel(x, c) {
        var k :| 0 <= k < |xs| && xs[k] == c;
        assert rel(ys[0], ys[k + 1]);
      }
    }
  }

  /** A pairwise relation holds of the filtered tuple exactly when it holds of all pairs of
      positions whose claims pass the filter. */
  lemma {:induction false} PairsOfHolding(claims: seq<Claim>, now: int, rel: (Claim, Claim) -> bool)
    ensures PairAll(Holding(claims, now), rel) <==> PairHolds(claims, now, rel)
  {
    if claims != [] {
      var x, rest := claims[0], claims[1..];
      PairsOfHolding(rest, now, rel);
      forall c ensures c in Holding(rest, now) <==> c in rest && HoldsAt(c, now) {
        HoldingMembers(rest, now, c);
      }
      PairAllCons(x, Holding(rest, now), rel);
      assert Holding(claims, now) == if HoldsAt(x, now) then [x] + Holding(rest, now) else Holding(rest, now);
      PairHoldsCons(claims, now, rel);
    }
  }

  lemma PairHoldsCons(claims: seq<Claim>, now: int, rel: (Claim, Claim) -> bool)
    requires claims != []
    ensures PairHolds(claims, now, rel) <==>
            && PairHolds(claims[1..], now, rel)
            && (HoldsAt(claims[0], now) ==> forall c | c in claims[1..] && HoldsAt(c, now) :: rel(claims[0], c))
  {
    var rest := claims[1..];
    if PairHolds(claims, now, rel) {
      forall i, j | ActiveTwins(rest, now, i, j) ensures rel(rest[i], rest[j]) {
        assert ActiveTwins(claims, now, i + 1, j + 1);
      }
      forall c | HoldsAt(claims[0], now) && c in rest && HoldsAt(c, now) ensures rel(claims[0], c) {
        var k :| 0 <= k < |rest| && rest[k] == c;
        assert ActiveTwins(claims, now, 0, k + 1);
      }
    }
    if PairHolds(rest, now, rel)
       && (HoldsAt(claims[0], now) ==> forall c | c in rest && HoldsAt(c, now) :: rel(claims[0], c))
    {
      forall i, j | ActiveTwins(claims, now, i, j) ensures rel(claims[i], claims[j]) {
        if i == 0 {
          assert claims[j] == rest[j - 1];
        } else {
          assert ActiveTwins(rest, now, i - 1, j - 1);
        }
      }
    }
  }

  predicate SameRepositoryCompatible(a: Claim, b: Claim) {
    a.repository == b.repository ==> Compatible(a, b)
  }

  ghost predicate CompatibleIn(xs: seq<Claim>, r: string) {
    forall i, j | 0 <= i < j < |xs| && xs[i].repository == r && xs[j].repository == r :: Compatible(xs[i], xs[j])
  }

  /** Checking a repository's group pairwise is checking all pairs of that repository. */
  lemma {:induction false} PairsOfGroup(xs: seq<Claim>, r: string)
    ensures PairwiseCompatible(InRepository(xs, r)) <==> CompatibleIn(xs, r)
  {
    if xs != [] {
      var x, rest := xs[0], xs[1..];
      PairsOfGroup(rest, r);
      GroupCons(x, rest, r);
      assert xs == [x] + rest;
      if CompatibleIn(xs, r) {
        forall i, j | 0 <= i < j < |rest| && rest[i].repository == r && rest[j].repository == r
          ensures Compatible(rest[i], rest[j])
        {
          assert Compatible(xs[i + 1], xs[j + 1]);
        }
        forall c | x.repository == r && c in rest && c.repository == r ensures Compatible(x, c) {
          var k :| 0 <= k < |rest| && rest[k] == c;
          assert Compatible(xs[0], xs[k + 1]);
        }
      }
    }
  }

  lemma GroupCons(x: Claim, rest: seq<Claim>, r: string)
    ensures PairwiseCompatible(InRepository([x] + rest, r)) <==>
            PairwiseCompatible(InRepository(rest, r)) &&
            (x.repository == r ==> forall c | c in rest && c.repository == r :: Compatible(x, c))
  {
    var g := InRepository(rest, r);
    assert ([x] + rest)[1..] == rest;
    forall c ensures c in g <==> c in rest && c.repository == r {
      InRepositoryMembers(rest, r, c);
    }
    if x.repository == r {
      PairAllCons(x, g, Compatible);
      assert InRepository([x] + rest, r) == [x] + g;
      assert PairAll([x] + g, Compatible) <==> PairwiseCompatible([x] + g);
      assert PairAll(g, Compatible) <==> PairwiseCompatible(g);
    } else {
      assert InRepository([x] + rest, r) == g;
    }
  }

  /** Repository by repository, or over all same-repository pairs at once. */
  lemma AllGroups(h: seq<Claim>)
    ensures (forall r :: RepositoryCompatible(h, r)) <==> PairAll(h, SameRepositoryCompatible)
  {
    if forall r :: RepositoryCompatible(h, r) {
      forall i, j | 0 <= i < j < |h| ensures SameRepositoryCompatible(h[i], h[j]) {
        assert RepositoryCompatible(h, h[i].repository);
        PairsOfGroup(h, h[i].repository);
      }
    }
    if PairAll(h, SameRepositoryCompatible) {
      forall r ensures RepositoryCompatible(h, r) {
        forall i, j | 0 <= i < j < |h| && h[i].repository == r && h[j].repository == r
          ensures Compatible(h[i], h[j])
        {
          assert SameRepositoryCompatible(h[i], h[j]);
        }
        PairsOfGroup(h, r);
      }
    }
  }

  predicate IdsDiffer(a: Claim, b: Claim) { a.id != b.id }

  /** The check is the safety property plus the presence of all prerequisites (and non-blank
      identifiers). */
  lemma IsolatedExact(claims: seq<Claim>, now: int)
    ensures Isolated(claims, now) <==>
            Safe(claims, now) && AllPresent(claims, now) && forall c | c in claims && HoldsAt(c, now) :: !Blank(c.id)
  {
    var h := Holding(claims, now);
    PairsOfHolding(claims, now, IdsDiffer);
    PairsOfHolding(claims, now, SameRepositoryCompatible);
    AllGroups(h);
    assert DifferentIds(h) <==> PairAll(h, IdsDiffer);
    TwinPairs(claims, now);
    GroupsExact(h);
    forall c ensures c in h <==> c in claims && HoldsAt(c, now) {
      HoldingMembers(claims, now, c);
    }
  }

  lemma TwinPairs(claims: seq<Claim>, now: int)
    ensures TwinsDiffer(claims, now) <==>
            PairHolds(claims, now, IdsDiffer) && PairHolds(claims, now, SameRepositoryCompatible)
  {
    hide Compatible, HoldsAt;
    if TwinsDiffer(claims, now) {
      assert forall i, j | ActiveTwins(claims, now, i, j) :: IdsDiffer(claims[i], claims[j]);
      assert forall i, j | ActiveTwins(claims, now, i, j) :: SameRepositoryCompatible(claims[i], claims[j]);
    }
    if PairHolds(claims, now, IdsDiffer) && PairHolds(claims, now, SameRepositoryCompatible) {
      forall i, j | ActiveTwins(claims, now, i, j)
        ensures claims[i].id != claims[j].id
        ensures claims[i].repository == claims[j].repository ==> Compatible(claims[i], claims[j])
      {
        assert IdsDiffer(claims[i], claims[j]) && SameRepositoryCompatible(claims[i], claims[j]);
      }
    }
  }

  lemma GroupsExact(h: seq<Claim>)
    ensures (forall r :: RepositoryIsolated(h, r)) <==>
            (forall r :: RepositoryCompatible(h, r)) && (forall r :: RepositoryPresent(h, r)) &&
            (forall r :: !RepositoryCyclic(h, r))
  {
    forall r ensures RepositoryIsolated(h, r) <==>
                     RepositoryCompatible(h, r) && RepositoryPresent(h, r) && !RepositoryCyclic(h, r) {
    }
    if forall r :: RepositoryIsolated(h, r) {
      forall r ensures RepositoryCompatible(h, r) && RepositoryPresent(h, r) && !RepositoryCyclic(h, r) {
        assert RepositoryIsolated(h, r);
      }
    }
  }

  // ----- safety without groups and edges -----

  ghost predicate Disjoint(a: Claim, b: Claim) {
    && (forall p :: !(Under(a.writeSet, p) && Under(b.writeSet, p)))
    && forall k :: !(k in a.keys && k in b.keys)
  }

  lemma CompatibleExact(a: Claim, b: Claim)
    ensures Compatible(a, b) <==> Disjoint(a, b)
  {
    OverlapExact(a.writeSet, b.writeSet);
  }

  /** Each claim of the walk holds and waits for the next one, in its repository. */
  ghost predicate WaitWalk(claims: seq<Claim>, now: int, p: seq<Claim>) {
    && (forall c | c in p :: c in claims && c.status == Active && now < c.expiresAt)
    && forall k, l | 0 <= k < l < |p| && l == k + 1 ::
         p[k].repository == p[l].repository && p[l].id in p[k].prerequisites
  }

  ghost predicate WaitCycle(claims: seq<Claim>, now: int, p: seq<Claim>) {
    |p| >= 2 && p[0] == p[|p| - 1] && WaitWalk(claims, now, p)
  }

  ghost predicate Deadlocked(claims: seq<Claim>, now: int) {
    exists p :: WaitCycle(claims, now, p)
  }

  ghost function ClaimOf(group: seq<Claim>, id: string): (c: Claim)
    requires id in Ids(group)
    ensures c in group && c.id == id
  {
    var c :| c in group && c.id == id;
    c
  }

  lemma CycleWaits(claims: seq<Claim>, now: int, r: string)
    requires PairHolds(claims, now, IdsDiffer) && RepositoryCyclic(Holding(claims, now), r)
    ensures Deadlocked(claims, now)
  {
    hide Edges, Ids;
    var group := InRepository(Holding(claims, now), r);
    SafeDifferentIds(claims, now, r);
    hide Holding, InRepository;
    var v :| OnCycle(Edges(group), v);
    var p :| WalkFrom(Edges(group), v, p, v) && |p| >= 2;
    EdgeKeys(group);
    forall k | 0 <= k < |p| ensures p[k] in Ids(group) {
      assert k + 1 < |p| ==> Edge(Edges(group), p[k], p[k + 1]);
      assert Edge(Edges(group), p[0], p[1]);
    }
    var q := Claimed(group, p);
    forall c | c in group ensures c in claims && HoldsAt(c, now) && c.repository == r {
      HoldingGroup(claims, now, r, c);
    }
    ClaimedWaits(group, p);
    assert WaitCycle(claims, now, q);
  }

  ghost function Claimed(group: seq<Claim>, p: seq<string>): (q: seq<Claim>)
    requires forall k | 0 <= k < |p| :: p[k] in Ids(group)
    ensures |q| == |p| && forall k | 0 <= k < |p| :: q[k] == ClaimOf(group, p[k])
    ensures forall c | c in q :: c in group
  {
    seq(|p|, k requires 0 <= k < |p| => ClaimOf(group, p[k]))
  }

  lemma ClaimedWaits(group: seq<Claim>, p: seq<string>)
    requires DifferentIds(group) && Walk(Edges(group), p) && forall k | 0 <= k < |p| :: p[k] in Ids(group)
    ensures var q := Claimed(group, p);
            forall k, l | 0 <= k < l < |q| && l == k + 1 :: q[l].id in q[k].prerequisites
  {
    var q := Claimed(group, p);
    forall k, l | 0 <= k < l < |q| && l == k + 1 ensures q[l].id in q[k].prerequisites {
      EdgeOf(group, ClaimOf(group, p[k]));
      assert Edge(Edges(group), p[k], p[l]);
    }
  }

  lemma WalkIsEdges(claims: seq<Claim>, now: int, p: seq<Claim>, r: string)
    requires PairHolds(claims, now, IdsDiffer) && WaitWalk(claims, now, p) && forall c | c in p :: c.repository == r
    requires p != []
    ensures Walk(Edges(InRepository(Holding(claims, now), r)), Named(p))
  {
    var group := InRepository(Holding(claims, now), r);
    SafeDifferentIds(claims, now, r);
    hide Holding, InRepository;
    var ids := Named(p);
    forall k, l | 0 <= k < l < |ids| && l == k + 1 ensures Edge(Edges(group), ids[k], ids[l]) {
      assert p[k] in p;
      HoldingGroup(claims, now, r, p[k]);
      EdgeOf(group, p[k]);
    }
  }

  function Named(p: seq<Claim>): (ids: seq<string>)
    ensures |ids| == |p| && forall k | 0 <= k < |p| :: ids[k] == p[k].id
  {
    seq(|p|, k requires 0 <= k < |p| => p[k].id)
  }

  lemma {:induction false} OneRepository(claims: seq<Claim>, now: int, p: seq<Claim>, k: nat)
    requires WaitWalk(claims, now, p) && k < |p|
    ensures p[k].repository == p[0].repository
  {
    if k > 0 {
      OneRepository(claims, now, p, k - 1);
      assert p[k - 1].repository == p[k].repository;
    }
  }

  lemma WaitsCycle(claims: seq<Claim>, now: int)
    requires PairHolds(claims, now, IdsDiffer) && Deadlocked(claims, now)
    ensures exists r :: RepositoryCyclic(Holding(claims, now), r)
  {
    var p: seq<Claim> :| WaitCycle(claims, now, p);
    var r := p[0].repository;
    forall c | c in p ensures c.repository == r {
      var k :| 0 <= k < |p| && p[k] == c;
      OneRepository(claims, now, p, k);
    }
    WalkIsEdges(claims, now, p, r);
    assert WalkFrom(Edges(InRepository(Holding(claims, now), r)), p[0].id, Named(p), p[0].id);
    assert OnCycle(Edges(InRepository(Holding(claims, now), r)), p[0].id);
    assert RepositoryCyclic(Holding(claims, now), r);
  }

  /** Safety said of the claims alone: two that are active and unexpired have different
      identifiers, in one repository no path lies under both write sets and no key is shared, and
      no claim waits for itself along prerequisites. */
  lemma SafeExact(claims: seq<Claim>, now: int)
    ensures Safe(claims, now) <==>
            && (forall i, j | 0 <= i < j < |claims| && claims[i].status == claims[j].status == Active &&
                              now < claims[i].expiresAt && now < claims[j].expiresAt ::
                  && claims[i].id != claims[j].id
                  && (claims[i].repository == claims[j].repository ==> Disjoint(claims[i], claims[j])))
            && !Deadlocked(claims, now)
  {
    hide Compatible, Disjoint, Deadlocked, Holding, RepositoryCyclic;
    forall a, b ensures Compatible(a, b) <==> Disjoint(a, b) {
      CompatibleExact(a, b);
    }
    if TwinsDiffer(claims, now) {
      TwinPairs(claims, now);
      if Deadlocked(claims, now) {
        WaitsCycle(claims, now);
      }
      if r :| RepositoryCyclic(Holding(claims, now), r) {
        CycleWaits(claims, now, r);
      }
    }
    assert forall i, j :: ActiveTwins(claims, now, i, j) <==>
      0 <= i < j < |claims| && claims[i].status == claims[j].status == Active &&
      now < claims[i].expiresAt && now < claims[j].expiresAt;
  }

  // ----- runs -----

  datatype Event =
    | Admit(claim: Claim)
    | Finish(index: nat, status: Status)  // complete, cancel or roll back
    | Advance(instant: int)

  datatype State = State(claims: seq<Claim>, now: int)

  /** None when the source raises; the clock never goes back. */
  ghost function Step(s: State, e: Event): Result<State> {
    match e
    case Admit(c) =>
      if c.status.Active? && WellBuilt(c) && Isolated(s.claims + [c], s.now)
      then Ok(State(s.claims + [c], s.now)) else Err
    case Finish(i, status) =>
      if i < |s.claims| && !status.Active? && Transition(s.claims[i], status).Ok?
      then Ok(State(s.claims[i := Transition(s.claims[i], status).value], s.now)) else Err
    case Advance(t) => if t >= s.now then Ok(State(s.claims, t)) else Err
  }

  // ----- what each event does -----

  ghost predicate NoRepeats(xs: seq<string>) {
    |Elems(xs)| == |xs| && forall x | x in xs :: exists i :: 0 <= i < |x| && x[i] !in {' ', '\t', '\n', '\r'}
  }

  /** What the builder of a claim demands. */
  ghost predicate Buildable(c: Claim) {
    && NoRepeats(c.prerequisites) && NoRepeats(c.writeSet) && NoRepeats(c.keys)
    && (forall p | p in c.prerequisites :: p != c.id)
    && c.claimedAt < c.expiresAt && |c.writeSet| >= 1
    && forall p | p in c.writeSet :: p[..1] != "/" && ".." !in Split(p, '/')
  }

  lemma UniqueExact(xs: seq<string>)
    ensures UniqueStrings(xs) <==> NoRepeats(xs)
  {
    SizeMeansDistinct(xs);
    assert Distinct(xs) <==> forall i, j | 0 <= i < j < |xs| :: xs[i] != xs[j];
    forall x | x in xs ensures Blank(x) <==> !exists i :: 0 <= i < |x| && x[i] !in {' ', '\t', '\n', '\r'} {
      forall i | 0 <= i < |x| ensures x[i] in x && (x[i] in " \t\n\r" <==> x[i] in {' ', '\t', '\n', '\r'}) {
        OfFour(x[i]);
      }
    }
  }

  lemma OfFour(c: char)
    ensures c in " \t\n\r" <==> c in {' ', '\t', '\n', '\r'}
  {
    var four := " \t\n\r";
    assert four[0] == ' ' && four[1] == '\t' && four[2] == '\n' && four[3] == '\r';
  }

  lemma RelativeExact(p: string)
    requires p != ""
    ensures RelativePath(p) <==> p[..1] != "/" && ".." !in Split(p, '/')
  {
    RootExact(p);
    KeepMembers(Split(p, '/'), "..");
  }

  lemma {:induction false} KeepMembers(parts: seq<string>, p: string)
    requires p != "" && p != "."
    ensures p in Keep(parts) <==> p in parts
  {
    if parts != [] {
      KeepMembers(parts[1..], p);
    }
  }

  lemma BuildableExact(c: Claim)
    ensures WellBuilt(c) <==> Buildable(c)
  {
    UniqueExact(c.prerequisites);
    UniqueExact(c.writeSet);
    UniqueExact(c.keys);
    forall p | p in c.writeSet && p != "" ensures RelativePath(p) <==> p[..1] != "/" && ".." !in Split(p, '/') {
      RelativeExact(p);
    }
    hide RelativePath, UniqueStrings;
    if NoRepeats(c.writeSet) {
      forall p | p in c.writeSet ensures p != "" {
        var i :| 0 <= i < |p| && p[i] !in {' ', '\t', '\n', '\r'};
      }
    }
  }

  /** Only an active claim moves, and only to a terminal status. The result carries that status
      at its position, everything else is as before, and the claim never holds again. */
  lemma FinishStep(s: State, i: nat, status: Status)
    ensures Step(s, Finish(i, status)).Ok? <==>
            i < |s.claims| && s.claims[i].status == Active && Buildable(s.claims[i]) && status != Active
    ensures Step(s, Finish(i, status)).Ok? ==>
              var c, t := s.claims[i], Step(s, Finish(i, status)).value;
              && t.now == s.now && |t.claims| == |s.claims|
              && (forall j | 0 <= j < |s.claims| && j != i :: t.claims[j] == s.claims[j])
              && t.claims[i] == Claim(c.id, c.repository, c.campaign, c.lane, c.claimant, c.writeSet, c.keys,
                                      c.prerequisites, c.claimedAt, c.expiresAt, status)
              && forall now :: !HoldsAt(t.claims[i], now)
  {
    if i < |s.claims| {
      BuildableExact(s.claims[i]);
    }
    hide WellBuilt, Buildable;
  }

  /** The clock moves forward only and changes no claim. A claim is admitted behind the others
      exactly when it is active, well built and isolated from those that hold now. */
  lemma AdmitAdvanceStep(s: State, c: Claim, t: int)
    ensures Step(s, Advance(t)) == if s.now <= t then Ok(State(s.claims, t)) else Err
    ensures Step(s, Admit(c)) ==
            if c.status == Active && Buildable(c) && Isolated(s.claims + [c], s.now)
            then Ok(State(s.claims + [c], s.now)) else Err
  {
    BuildableExact(c);
    hide WellBuilt, Buildable, Isolated;
  }

  /** A graph with fewer entries has fewer cycles. */
  lemma FewerCycles(g: Graph, big: Graph)
    requires forall k | k in g :: k in big && big[k] == g[k]
    ensures Cyclic(g) ==> Cyclic(big)
  {
    if Cyclic(g) {
      var v :| OnCycle(g, v);
      var p :| WalkFrom(g, v, p, v) && |p| >= 2;
      assert WalkFrom(big, v, p, v);
      assert OnCycle(big, v);
    }
  }

  /** Fewer claims hold: what holds afterwards held before, at the same position. */
  ghost predicate Shrinks(claims: seq<Claim>, now: int, claims': seq<Claim>, now': int) {
    && |claims'| == |claims|
    && forall i | 0 <= i < |claims'| && HoldsAt(claims'[i], now') :: claims'[i] == claims[i] && HoldsAt(claims[i], now)
  }

  lemma HoldingGroup(claims: seq<Claim>, now: int, r: string, c: Claim)
    ensures c in InRepository(Holding(claims, now), r) <==> c in claims && HoldsAt(c, now) && c.repository == r
  {
    InRepositoryMembers(Holding(claims, now), r, c);
    HoldingMembers(claims, now, c);
  }

  lemma SafeDifferentIds(claims: seq<Claim>, now: int, r: string)
    requires PairHolds(claims, now, IdsDiffer)
    ensures DifferentIds(InRepository(Holding(claims, now), r))
  {
    PairsOfHolding(claims, now, IdsDiffer);
    assert DifferentIds(Holding(claims, now));
    GroupDifferentIds(Holding(claims, now), r);
  }

  lemma RelationShrinks(claims: seq<Claim>, now: int, claims': seq<Claim>, now': int, r: string)
    requires PairHolds(claims, now, IdsDiffer) && PairHolds(claims', now', IdsDiffer)
    requires Shrinks(claims, now, claims', now')
    ensures RepositoryCyclic(Holding(claims', now'), r) ==> RepositoryCyclic(Holding(claims, now), r)
  {
    var big, small := InRepository(Holding(claims, now), r), InRepository(Holding(claims', now'), r);
    SafeDifferentIds(claims, now, r);
    SafeDifferentIds(claims', now', r);
    forall k | k in Edges(small) ensures k in Edges(big) && Edges(big)[k] == Edges(small)[k] {
      var c := EdgeIsPrerequisite(small, k);
      HoldingGroup(claims', now', r, c);
      var i :| 0 <= i < |claims'| && claims'[i] == c;
      assert claims[i] == c;
      HoldingGroup(claims, now, r, c);
      EdgeOf(big, c);
    }
    FewerCycles(Edges(small), Edges(big));
  }

  lemma ShrinkingKeepsSafe(claims: seq<Claim>, now: int, claims': seq<Claim>, now': int)
    requires Safe(claims, now) && Shrinks(claims, now, claims', now')
    ensures Safe(claims', now')
  {
    forall i, j | ActiveTwins(claims', now', i, j) ensures ActiveTwins(claims, now, i, j) {
    }
    forall r ensures !RepositoryCyclic(Holding(claims', now'), r) {
      RelationShrinks(claims, now, claims', now', r);
    }
  }

  /** Every accepted step keeps the ledger safe. */
  lemma StepKeepsSafe(s: State, e: Event)
    requires Safe(s.claims, s.now) && Step(s, e).Ok?
    ensures Safe(Step(s, e).value.claims, Step(s, e).value.now)
  {
    var t := Step(s, e).value;
    if e.Admit? {
      IsolatedExact(t.claims, t.now);
    } else {
      ShrinkingKeepsSafe(s.claims, s.now, t.claims, t.now);
    }
  }

  ghost function Run(s: State, events: seq<Event>): State
    decreases |events|
  {
    if events == [] then s
    else
      var next := Step(s, events[0]);
      Run(if next.Ok? then next.value else s, events[1..])
  }

  lemma EmptySafe(now: int)
    ensures Safe([], now)
  {
    forall r ensures !RepositoryCyclic(Holding([], now), r) {
      EmptyGroup();
    }
  }

  /** Safety over every run that starts with no claims. */
  lemma {:induction false} RunSafe(s: State, events: seq<Event>)
    requires Safe(s.claims, s.now)
    ensures Safe(Run(s, events).claims, Run(s, events).now)
    decreases |events|
  {
    if events != [] {
      if Step(s, events[0]).Ok? {
        StepKeepsSafe(s, events[0]);
        RunSafe(Step(s, events[0]).value, events[1..]);
      } else {
        RunSafe(s, events[1..]);
      }
    }
  }

  lemma ReachableSafe(now: int, events: seq<Event>)
    ensures var s := Run(State([], now), events); Safe(s.claims, s.now)
  {
    EmptySafe(now);
    RunSafe(State([], now), events);
  }

  // ----- what a completion does to the check -----

  ghost predicate PresentFor(claims: seq<Claim>, now: int, c: Claim, p: string) {
    exists d :: d in claims && HoldsAt(d, now) && d.repository == c.repository && d.id == p
  }

  ghost predicate Supported(claims: seq<Claim>, now: int, c: Claim) {
    forall p | p in c.prerequisites :: PresentFor(claims, now, c, p)
  }

  lemma PresentExact(claims: seq<Claim>, now: int)
    ensures AllPresent(claims, now) <==> forall c | c in claims && HoldsAt(c, now) :: Supported(claims, now, c)
  {
    hide Holding, InRepository;
    if AllPresent(claims, now) {
      forall c | c in claims && HoldsAt(c, now) ensures Supported(claims, now, c) {
        SupportedByGroup(claims, now, c);
      }
    }
    if forall c | c in claims && HoldsAt(c, now) :: Supported(claims, now, c) {
      forall r ensures RepositoryPresent(Holding(claims, now), r) {
        GroupBySupported(claims, now, r);
      }
    }
  }

  lemma SupportedByGroup(claims: seq<Claim>, now: int, c: Claim)
    requires AllPresent(claims, now) && c in claims && HoldsAt(c, now)
    ensures Supported(claims, now, c)
  {
    hide Holding, InRepository;
    var group := InRepository(Holding(claims, now), c.repository);
    assert RepositoryPresent(Holding(claims, now), c.repository);
    HoldingGroup(claims, now, c.repository, c);
    forall p | p in c.prerequisites ensures PresentFor(claims, now, c, p) {
      assert p in Ids(group);
      var d :| d in group && d.id == p;
      HoldingGroup(claims, now, c.repository, d);
    }
  }

  lemma GroupBySupported(claims: seq<Claim>, now: int, r: string)
    requires forall c | c in claims && HoldsAt(c, now) :: Supported(claims, now, c)
    ensures RepositoryPresent(Holding(claims, now), r)
  {
    hide Holding, InRepository;
    var group := InRepository(Holding(claims, now), r);
    forall c, p | c in group && p in c.prerequisites ensures p in Ids(group) {
      HoldingGroup(claims, now, r, c);
      assert PresentFor(claims, now, c, p);
      var d :| d in claims && HoldsAt(d, now) && d.repository == c.repository && d.id == p;
      HoldingGroup(claims, now, r, d);
    }
  }

  /** Some claim holding now in claim i's repository names claim i as a prerequisite. */
  ghost predicate Needed(claims: seq<Claim>, now: int, i: nat)
    requires i < |claims|
  {
    exists c :: c in claims && HoldsAt(c, now) && c.repository == claims[i].repository &&
      claims[i].id in c.prerequisites
  }

  ghost function Finished(s: State, i: nat, status: Status): seq<Claim>
    requires i < |s.claims|
  {
    s.claims[i := s.claims[i].(status := status)]
  }

  /** An accepted completion, cancellation or roll-back keeps the isolation check satisfied
      exactly when the claim has expired or no claim that holds in its repository waits for it. */
  lemma FinishExact(s: State, i: nat, status: Status)
    requires Isolated(s.claims, s.now) && Step(s, Finish(i, status)).Ok?
    ensures Isolated(Step(s, Finish(i, status)).value.claims, s.now) <==>
            !(HoldsAt(s.claims[i], s.now) && Needed(s.claims, s.now, i))
  {
    FinishStep(s, i, status);
    hide Step, Safe, AllPresent, Supported, Isolated, Needed;
    var after := Finished(s, i, status);
    assert Step(s, Finish(i, status)).value.claims == after;
    IsolatedExact(s.claims, s.now);
    IsolatedExact(after, s.now);
    ShrinkingKeepsSafe(s.claims, s.now, after, s.now);
    PresentExact(s.claims, s.now);
    PresentExact(after, s.now);
    if HoldsAt(s.claims[i], s.now) && Needed(s.claims, s.now, i) {
      NeededUnsupported(s, i, status);
    } else {
      forall c | c in after && HoldsAt(c, s.now) ensures Supported(after, s.now, c) {
        UnneededSupported(s, i, status, c);
      }
    }
  }

  lemma HoldersDiffer(claims: seq<Claim>, now: int, m: nat, i: nat)
    requires Safe(claims, now) && m < |claims| && i < |claims| && m != i
    requires HoldsAt(claims[m], now) && HoldsAt(claims[i], now)
    ensures claims[m].id != claims[i].id
  {
    assert ActiveTwins(claims, now, if m < i then m else i, if m < i then i else m);
  }

  lemma NeededUnsupported(s: State, i: nat, status: Status)
    requires Safe(s.claims, s.now) && i < |s.claims| && HoldsAt(s.claims[i], s.now) && !status.Active?
    requires s.claims[i].id !in s.claims[i].prerequisites && Needed(s.claims, s.now, i)
    ensures exists c :: c in Finished(s, i, status) && HoldsAt(c, s.now) && !Supported(Finished(s, i, status), s.now, c)
  {
    hide Compatible;
    var after, id := Finished(s, i, status), s.claims[i].id;
    var c :| c in s.claims && HoldsAt(c, s.now) && c.repository == s.claims[i].repository && id in c.prerequisites;
    var k :| 0 <= k < |s.claims| && s.claims[k] == c;
    assert after[k] == c;
    forall d | d in after && HoldsAt(d, s.now) ensures d.id != id {
      var m :| 0 <= m < |after| && after[m] == d;
      HoldersDiffer(s.claims, s.now, m, i);
    }
    assert !PresentFor(after, s.now, c, id);
  }

  lemma UnneededSupported(s: State, i: nat, status: Status, c: Claim)
    requires i < |s.claims| && !status.Active? && !(HoldsAt(s.claims[i], s.now) && Needed(s.claims, s.now, i))
    requires forall d | d in s.claims && HoldsAt(d, s.now) :: Supported(s.claims, s.now, d)
    requires c in Finished(s, i, status) && HoldsAt(c, s.now)
    ensures Supported(Finished(s, i, status), s.now, c)
  {
    var after := Finished(s, i, status);
    var k :| 0 <= k < |after| && after[k] == c;
    assert c == s.claims[k];
    forall p | p in c.prerequisites ensures PresentFor(after, s.now, c, p) {
      assert PresentFor(s.claims, s.now, c, p);
      var d :| d in s.claims && HoldsAt(d, s.now) && d.repository == c.repository && d.id == p;
      var m :| 0 <= m < |s.claims| && s.claims[m] == d;
      assert m != i;
      assert after[m] == d;
    }
  }

  /** Some claim that still holds at the later instant names a prerequisite that holds now, in
      its repository, and has expired by then. */
  ghost predicate Outlived(claims: seq<Claim>, now: int, later: int) {
    exists c, d :: OutlivedBy(claims, now, later, c, d)
  }

  ghost predicate OutlivedBy(claims: seq<Claim>, now: int, later: int, c: Claim, d: Claim) {
    && c in claims && HoldsAt(c, later)
    && d in claims && HoldsAt(d, now) && d.repository == c.repository && d.id in c.prerequisites && d.expiresAt <= later
  }

  /** Advancing the clock keeps the isolation check satisfied exactly when no claim outlives a
      prerequisite it waits for. */
  lemma AdvanceExact(claims: seq<Claim>, now: int, later: int)
    requires Isolated(claims, now) && now <= later
    ensures Isolated(claims, later) <==> !Outlived(claims, now, later)
  {
    hide Safe, AllPresent, Supported, Isolated, Outlived;
    IsolatedExact(claims, now);
    IsolatedExact(claims, later);
    ShrinkingKeepsSafe(claims, now, claims, later);
    PresentExact(claims, now);
    PresentExact(claims, later);
    if Outlived(claims, now, later) {
      OutlivedUnsupported(claims, now, later);
    } else {
      forall c | c in claims && HoldsAt(c, later) ensures Supported(claims, later, c) {
        StillSupported(claims, now, later, c);
      }
    }
  }

  lemma OutlivedUnsupported(claims: seq<Claim>, now: int, later: int)
    requires Safe(claims, now) && now <= later && Outlived(claims, now, later)
    ensures exists c :: c in claims && HoldsAt(c, later) && !Supported(claims, later, c)
  {
    hide Compatible;
    var c, d :| OutlivedBy(claims, now, later, c, d);
    var i :| 0 <= i < |claims| && claims[i] == d;
    forall e | e in claims && HoldsAt(e, later) ensures e.id != d.id {
      var m :| 0 <= m < |claims| && claims[m] == e;
      HoldersDiffer(claims, now, m, i);
    }
    assert !PresentFor(claims, later, c, d.id);
  }

  lemma StillSupported(claims: seq<Claim>, now: int, later: int, c: Claim)
    requires now <= later && !Outlived(claims, now, later) && c in claims && HoldsAt(c, later)
    requires Supported(claims, now, c)
    ensures Supported(claims, later, c)
  {
    forall p | p in c.prerequisites ensures PresentFor(claims, later, c, p) {
      assert PresentFor(claims, now, c, p);
      var d :| d in claims && HoldsAt(d, now) && d.repository == c.repository && d.id == p;
      assert !OutlivedBy(claims, now, later, c, d);
    }
  }

  const FIRST := Claim("a", "repo", "c", "lane", "agent", ["x"], [], [], 0, 10, Active)
  const SECOND := Claim("b", "repo", "c", "lane", "agent", ["y"], [], ["a"], 0, 20, Active)

  lemma StepOf(g: Graph, p: seq<string>)
    requires Walk(g, p) && |p| >= 2
    ensures Succ(g, p[0]) != []
  {
    assert Edge(g, p[0], p[1]);
  }

  lemma ChainAcyclic(g: Graph)
    requires g == map["a" := [], "b" := ["a"]]
    ensures !Cyclic(g)
  {
    if Cyclic(g) {
      var v :| OnCycle(g, v);
      OnCycleIsTarget(g, v);
      var p :| WalkFrom(g, v, p, v) && |p| >= 2;
      StepOf(g, p);
    }
  }

  lemma OneSegment(c: char)
    requires c != '/' && c != '.'
    ensures Parse([c]).segments == [[c]]
  {
    assert [c][1..] == "" && Split("", '/') == [""];
    assert [c] + "" == [c] && [""][1..] == [];
    assert Split([c], '/') == [[c]];
    KeepAll([[c]]);
  }

  lemma Separate()
    ensures Compatible(FIRST, SECOND)
  {
    OneSegment('x');
    OneSegment('y');
  }

  lemma BothHold()
    ensures Holding([FIRST, SECOND], 0) == [FIRST, SECOND]
    ensures InRepository([FIRST, SECOND], "repo") == [FIRST, SECOND]
    ensures forall r | r != "repo" :: InRepository([FIRST, SECOND], r) == []
    ensures Edges([FIRST, SECOND]) == map["a" := [], "b" := ["a"]]
  {
    var both := [FIRST, SECOND];
    assert both[1..] == [SECOND] && [SECOND][1..] == [] && both[..1] == [FIRST] && [FIRST][..0] == [];
    assert Holding([SECOND], 0) == [SECOND];
    forall r ensures InRepository(both, r) == if r == "repo" then both else [] {
      assert InRepository([SECOND], r) == if r == "repo" then [SECOND] else [];
    }
    assert Edges([FIRST]) == map["a" := []];
  }

  lemma FirstBuildable()
    ensures WellBuilt(FIRST)
  {
    OneSegment('x');
    assert "x"[0] == 'x' && Parse("x").segments == ["x"];
    assert !Blank("x") by { assert 'x' in "x"; }
  }

  lemma TwoIsolated()
    ensures Isolated([FIRST, SECOND], 0)
  {
    hide InRepository, Holding, Edges, Compatible;
    BothHold();
    Separate();
    ChainAcyclic(Edges([FIRST, SECOND]));
    EmptyGroup();
    assert "a"[0] == 'a' && "b"[0] == 'b';
    assert !Blank("a") by { assert 'a' in "a"; }
    assert !Blank("b") by { assert 'b' in "b"; }
    assert DifferentIds([FIRST, SECOND]);
    assert Ids([FIRST, SECOND]) == {"a", "b"};
    assert PairwiseCompatible([FIRST, SECOND]);
    assert PrerequisitesPresent([FIRST, SECOND]);
    forall r ensures RepositoryIsolated([FIRST, SECOND], r) {
      assert r == "repo" ==> GroupIsolated([FIRST, SECOND]);
    }
  }

  /** Completing a claim another one waits for makes an isolated set of claims fail the check. */
  lemma CompletionBreaksIsolation()
    ensures var s := State([FIRST, SECOND], 0); var next := Step(s, Finish(0, Completed));
            && Isolated(s.claims, s.now) && next == Ok(State([FIRST.(status := Completed), SECOND], 0))
            && !Isolated(next.value.claims, next.value.now)
  {
    hide Isolated, WellBuilt;
    var s := State([FIRST, SECOND], 0);
    TwoIsolated();
    FirstBuildable();
    FinishExact(s, 0, Completed);
    assert SECOND in s.claims;
    assert Finished(s, 0, Completed) == [FIRST.(status := Completed), SECOND];
  }

  /** So does the clock alone, once the prerequisite has expired and the claim has not. */
  lemma ExpiryBreaksIsolation()
    ensures Isolated([FIRST, SECOND], 0) && !Isolated([FIRST, SECOND], 10)
  {
    hide InRepository, Holding, Edges, Compatible, Isolated;
    TwoIsolated();
    var both := [FIRST, SECOND];
    assert both[0] in both && both[1] in both;
    assert OutlivedBy(both, 0, 10, SECOND, FIRST);
    AdvanceExact(both, 0, 10);
  }
}
