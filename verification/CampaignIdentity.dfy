/** Correlated model identities and their collapse into witnesses. */
module CampaignIdentity {
  import opened Ordering
  import opened UnionFind

  datatype Identity = Identity(provider: string, model: string, family: string, operator: string)
  datatype Run = Run(id: string, identity: Identity)

  /** The witness digest is a function of the other fields and is not carried. */
  datatype Witness = Witness(
    families: seq<string>,
    exactModels: seq<(string, string)>,
    providers: seq<string>,
    models: seq<string>,
    operators: seq<string>,
    runIds: seq<string>)

  datatype Collapse =
    | Collapsed(witnesses: seq<Witness>)
    | MalformedComponent
    | DuplicateRun

  // ----- identity components -----

  predicate Alphanumeric(c: char) {
    'A' <= c <= 'Z' || 'a' <= c <= 'z' || '0' <= c <= '9'
  }

  /** `[A-Za-z0-9][A-Za-z0-9._:/+@-]{0,255}\Z` */
  predicate Portable(s: string) {
    && 1 <= |s| <= 256
    && Alphanumeric(s[0])
    && forall c | c in s :: Alphanumeric(c) || c in "._:/+@-"
  }

  predicate PortableIdentity(i: Identity) {
    Portable(i.provider) && Portable(i.model) && Portable(i.family) && Portable(i.operator)
  }

  // ----- the correlation relation and its components -----

  predicate Correlated(a: Run, b: Run) {
    || a.identity.family == b.identity.family
    || (a.identity.provider == b.identity.provider && a.identity.model == b.identity.model)
  }

  ghost predicate Chain(s: set<Run>, a: Run, p: seq<Run>, b: Run) {
    && p != [] && p[0] == a && p[|p| - 1] == b
    && (forall i | 0 <= i < |p| :: p[i] in s)
    && forall i, j | 0 <= i < j < |p| && j == i + 1 :: Correlated(p[i], p[j])
  }

  /** A chain of shared families or shared (provider, model) pairs links the two runs. */
  ghost predicate Linked(s: set<Run>, a: Run, b: Run) {
    exists p :: Chain(s, a, p, b)
  }

  ghost function Component(s: set<Run>, a: Run): set<Run> {
    set b | b in s && Linked(s, a, b)
  }

  ghost function Components(s: set<Run>): set<set<Run>> {
    set a | a in s :: Component(s, a)
  }

  lemma LinkedStep(s: set<Run>, a: Run, b: Run)
    requires a in s && b in s && Correlated(a, b)
    ensures Linked(s, a, b) && Linked(s, a, a)
  {
    assert Chain(s, a, [a, b], b);
    assert Chain(s, a, [a], a);
  }

  lemma LinkedTrans(s: set<Run>, a: Run, b: Run, c: Run)
    requires Linked(s, a, b) && Linked(s, b, c)
    ensures Linked(s, a, c)
  {
    var p :| Chain(s, a, p, b);
    var q :| Chain(s, b, q, c);
    var r := p + q[1..];
    forall i, j | 0 <= i < j < |r| && j == i + 1 ensures Correlated(r[i], r[j]) {
      if j >= |p| {
        assert r[j] == q[j - |p| + 1];
        assert r[i] == q[i - |p| + 1];
      }
    }
    assert Chain(s, a, r, c);
  }

  lemma {:induction false} LinkedReverse(s: set<Run>, a: Run, p: seq<Run>, b: Run)
    requires Chain(s, a, p, b)
    ensures Linked(s, b, a)
    decreases |p|
  {
    if |p| == 1 {
      assert Chain(s, a, [a], a);
    } else {
      assert Correlated(p[0], p[1]);
      assert Chain(s, p[1], p[1..], b);
      LinkedReverse(s, p[1], p[1..], b);
      LinkedStep(s, p[1], a);
      LinkedTrans(s, b, p[1], a);
    }
  }

  lemma LinkedSymm(s: set<Run>, a: Run, b: Run)
    requires Linked(s, a, b)
    ensures Linked(s, b, a)
  {
    var p :| Chain(s, a, p, b);
    LinkedReverse(s, a, p, b);
  }

  lemma LinkedMembers(s: set<Run>, a: Run, b: Run)
    requires Linked(s, a, b)
    ensures a in s && b in s
  {
    var p :| Chain(s, a, p, b);
    assert p[0] in s && p[|p| - 1] in s;
  }

  /** Components are equal or disjoint. */
  lemma ComponentsMeet(s: set<Run>, a: Run, b: Run)
    requires a in s && b in s
    ensures Linked(s, a, b) <==> Component(s, a) == Component(s, b)
    ensures !Linked(s, a, b) ==> Component(s, a) !! Component(s, b)
    ensures a in Component(s, a)
  {
    LinkedStep(s, a, a);
    LinkedStep(s, b, b);
    if Linked(s, a, b) {
      LinkedSymm(s, a, b);
      forall x | x in s ensures Linked(s, a, x) <==> Linked(s, b, x) {
        if Linked(s, a, x) { LinkedTrans(s, b, a, x); }
        if Linked(s, b, x) { LinkedTrans(s, a, b, x); }
      }
    } else {
      forall x | x in Component(s, a) && x in Component(s, b) ensures false {
        LinkedSymm(s, b, x);
        LinkedTrans(s, a, x, b);
      }
      assert b in Component(s, b) && b !in Component(s, a);
    }
  }

  // ----- witnesses -----

  predicate PairLess(a: (string, string), b: (string, string)) {
    StringLess(a.0, b.0) || (a.0 == b.0 && StringLess(a.1, b.1))
  }

  lemma PairOrder()
    ensures StrictTotal(PairLess)
  {
    StringOrder();
  }

  /** The sort key of `sorted(witnesses, key=...)`. */
  predicate WitnessLess(a: Witness, b: Witness) {
    StringsLess(a.families, b.families) || (a.families == b.families && StringsLess(a.runIds, b.runIds))
  }

  lemma WitnessOrder()
    ensures StrictWeak(WitnessLess) && StrictOrder(WitnessLess)
  {
    StringsOrder();
    TotalIsWeak(StringsLess);
  }

  ghost predicate Lists<T(!new)>(lt: (T, T) -> bool, xs: seq<T>, members: set<T>) {
    Ascending(lt, xs) && Elems(xs) == members
  }

  function FamilyOf(r: Run): string { r.identity.family }
  function ExactOf(r: Run): (string, string) { (r.identity.provider, r.identity.model) }
  function ProviderOf(r: Run): string { r.identity.provider }
  function ModelOf(r: Run): string { r.identity.model }
  function OperatorOf(r: Run): string { r.identity.operator }
  function IdOf(r: Run): string { r.id }
  function First(p: (string, string)): string { p.0 }
  function Second(p: (string, string)): string { p.1 }

  ghost function Image<A(!new), B>(f: A -> B, s: set<A>): set<B> {
    set a | a in s :: f(a)
  }

  /** w summarises the runs of c: every field is the sorted set of what the runs declare. */
  ghost predicate Summarises(w: Witness, c: set<Run>) {
    && Lists(StringLess, w.families, Image(FamilyOf, c))
    && Lists(PairLess, w.exactModels, Image(ExactOf, c))
    && Lists(StringLess, w.providers, Image(ProviderOf, c))
    && Lists(StringLess, w.models, Image(ModelOf, c))
    && Lists(StringLess, w.operators, Image(OperatorOf, c))
    && Lists(StringLess, w.runIds, Image(IdOf, c))
  }

  lemma SummaryUnique(w1: Witness, w2: Witness, c: set<Run>)
    requires Summarises(w1, c) && Summarises(w2, c)
    ensures w1 == w2
  {
    StringOrder();
    PairOrder();
    AscendingUnique(StringLess, w1.families, w2.families);
    AscendingUnique(PairLess, w1.exactModels, w2.exactModels);
    AscendingUnique(StringLess, w1.providers, w2.providers);
    AscendingUnique(StringLess, w1.models, w2.models);
    AscendingUnique(StringLess, w1.operators, w2.operators);
    AscendingUnique(StringLess, w1.runIds, w2.runIds);
  }

  function Map<A, B>(f: A -> B, xs: seq<A>): (r: seq<B>)
    ensures |r| == |xs| && forall i | 0 <= i < |xs| :: r[i] == f(xs[i])
  {
    seq(|xs|, i requires 0 <= i < |xs| => f(xs[i]))
  }

  /** `ModelWitness.build`; providers and models are projected from the exact-model pairs. */
  function Build(component: seq<Run>): Witness {
    var exact := SortUnique(PairLess, Map(ExactOf, component));
    Witness(
      SortUnique(StringLess, Map(FamilyOf, component)),
      exact,
      SortUnique(StringLess, Map(First, exact)),
      SortUnique(StringLess, Map(Second, exact)),
      SortUnique(StringLess, Map(OperatorOf, component)),
      SortUnique(StringLess, Map(IdOf, component)))
  }

  lemma MapElems<A(!new), B(!new)>(f: A -> B, xs: seq<A>)
    ensures Elems(Map(f, xs)) == Image(f, Elems(xs))
  {
    var m := Map(f, xs);
    forall t ensures t in Elems(m) <==> t in Image(f, Elems(xs)) {
      if t in Elems(m) {
        var i :| 0 <= i < |m| && m[i] == t;
        assert xs[i] in Elems(xs);
      }
      if t in Image(f, Elems(xs)) {
        var x :| x in Elems(xs) && f(x) == t;
        var i :| 0 <= i < |xs| && xs[i] == x;
        assert m[i] == t;
      }
    }
  }

  lemma ListsSorted<A(!new), B(!new)>(lt: (B, B) -> bool, f: A -> B, xs: seq<A>)
    requires StrictTotal(lt)
    ensures Lists(lt, SortUnique(lt, Map(f, xs)), Image(f, Elems(xs)))
  {
    MapElems(f, xs);
    SortUniqueSorts(lt, Map(f, xs));
  }

  lemma ImageTwice<A(!new), B(!new), C(!new)>(f: A -> B, g: B -> C, h: A -> C, s: set<A>)
    requires forall a :: g(f(a)) == h(a)
    ensures Image(g, Image(f, s)) == Image(h, s)
  {
    forall c ensures c in Image(g, Image(f, s)) <==> c in Image(h, s) {
      if c in Image(h, s) {
        var a :| a in s && h(a) == c;
        assert f(a) in Image(f, s);
      }
    }
  }

  lemma BuildSummarises(component: seq<Run>)
    ensures Summarises(Build(component), Elems(component))
  {
    StringOrder();
    PairOrder();
    ListsSorted(StringLess, FamilyOf, component);
    ListsSorted(PairLess, ExactOf, component);
    ListsSorted(StringLess, OperatorOf, component);
    ListsSorted(StringLess, IdOf, component);
    var exact := SortUnique(PairLess, Map(ExactOf, component));
    ListsSorted(StringLess, First, exact);
    ListsSorted(StringLess, Second, exact);
    ImageTwice(ExactOf, First, ProviderOf, Elems(component));
    ImageTwice(ExactOf, Second, ModelOf, Elems(component));
  }

  /** What a summary lists, field by field of the runs; all lists ascend without repetitions. */
  lemma SummaryMeaning(w: Witness, c: set<Run>, x: string, y: string)
    requires Summarises(w, c)
    ensures x in w.families <==> exists r :: r in c && r.identity.family == x
    ensures x in w.providers <==> exists r :: r in c && r.identity.provider == x
    ensures x in w.models <==> exists r :: r in c && r.identity.model == x
    ensures x in w.operators <==> exists r :: r in c && r.identity.operator == x
    ensures x in w.runIds <==> exists r :: r in c && r.id == x
    ensures (x, y) in w.exactModels <==> exists r :: r in c && r.identity.provider == x && r.identity.model == y
    ensures forall i, j | 0 <= i < j < |w.exactModels| ::
              var (p, q) := (w.exactModels[i], w.exactModels[j]);
              StringLess(p.0, q.0) || (p.0 == q.0 && StringLess(p.1, q.1))
  {
    ListsMeaning(StringLess, w.families, FamilyOf, c, x);
    ListsMeaning(StringLess, w.providers, ProviderOf, c, x);
    ListsMeaning(StringLess, w.models, ModelOf, c, x);
    ListsMeaning(StringLess, w.operators, OperatorOf, c, x);
    ListsMeaning(StringLess, w.runIds, IdOf, c, x);
    ListsMeaning(PairLess, w.exactModels, ExactOf, c, (x, y));
    hide Lists, Image;
    assert Lists(PairLess, w.exactModels, Image(ExactOf, c));
    PairsAscend(w, c);
  }

  lemma ListsMeaning<A(!new), B(!new)>(lt: (B, B) -> bool, xs: seq<B>, f: A -> B, c: set<A>, x: B)
    requires Lists(lt, xs, Image(f, c))
    ensures x in xs <==> exists a :: a in c && f(a) == x
  {
    assert x in xs <==> x in Elems(xs);
  }

  lemma PairsAscend(w: Witness, c: set<Run>)
    requires Lists(PairLess, w.exactModels, Image(ExactOf, c))
    ensures forall i, j | 0 <= i < j < |w.exactModels| ::
              var (p, q) := (w.exactModels[i], w.exactModels[j]);
              StringLess(p.0, q.0) || (p.0 == q.0 && StringLess(p.1, q.1))
  {
    hide StringLess;
  }

  // ----- the collapse as a relation -----

  ghost predicate SummaryOfSome(s: set<Run>, w: Witness) {
    exists a :: a in s && Summarises(w, Component(s, a))
  }

  ghost predicate HasSummary(s: set<Run>, ws: seq<Witness>, a: Run) {
    exists w :: w in ws && Summarises(w, Component(s, a))
  }

  /** ws holds exactly one witness per component, in the order of the sort key. */
  ghost predicate Collapses(s: set<Run>, ws: seq<Witness>) {
    && Ascending(WitnessLess, ws)
    && (forall w | w in ws :: SummaryOfSome(s, w))
    && (forall a | a in s :: HasSummary(s, ws, a))
  }

  /** The set of runs determines the witnesses: no order of the input can change them. */
  lemma CollapseUnique(s: set<Run>, ws1: seq<Witness>, ws2: seq<Witness>)
    requires Collapses(s, ws1) && Collapses(s, ws2)
    ensures ws1 == ws2
  {
    hide SummaryOfSome, HasSummary, WitnessLess;
    forall w ensures w in ws1 <==> w in ws2 {
      if w in ws1 { CollapseIncluded(s, ws1, ws2, w); }
      if w in ws2 { CollapseIncluded(s, ws2, ws1, w); }
    }
    WitnessOrder();
    assert Elems(ws1) == Elems(ws2);
    AscendingUnique(WitnessLess, ws1, ws2);
  }

  lemma CollapseIncluded(s: set<Run>, ws1: seq<Witness>, ws2: seq<Witness>, w: Witness)
    requires Collapses(s, ws1) && Collapses(s, ws2) && w in ws1
    ensures w in ws2
  {
    assert SummaryOfSome(s, w);
    var a :| a in s && Summarises(w, Component(s, a));
    assert HasSummary(s, ws2, a);
    var w' :| w' in ws2 && Summarises(w', Component(s, a));
    SummaryUnique(w, w', Component(s, a));
  }

  // ----- union-find computes the components -----

  ghost predicate RootsLinked(records: seq<Run>, p: seq<nat>)
    requires Descending(p) && |p| == |records|
  {
    forall i | 0 <= i < |p| :: Linked(Elems(records), records[i], records[Root(p, i)])
  }

  ghost predicate Owned(records: seq<Run>, p: seq<nat>, fam: map<string, nat>, exact: map<(string, string), nat>,
      i: nat)
    requires Descending(p) && |p| == |records| && i < |p|
  {
    && FamilyOf(records[i]) in fam && ExactOf(records[i]) in exact
    && fam[FamilyOf(records[i])] < |p| && exact[ExactOf(records[i])] < |p|
    && Root(p, i) == Root(p, fam[FamilyOf(records[i])]) == Root(p, exact[ExactOf(records[i])])
  }

  ghost predicate Owners(records: seq<Run>, fam: map<string, nat>, exact: map<(string, string), nat>) {
    && (forall f | f in fam :: fam[f] < |records| && FamilyOf(records[fam[f]]) == f)
    && (forall e | e in exact :: exact[e] < |records| && ExactOf(records[exact[e]]) == e)
  }

  lemma UnionLinks(records: seq<Run>, p: seq<nat>, q: seq<nat>, left: nat, right: nat)
    requires Descending(p) && Descending(q) && |p| == |q| == |records| && left < |p| && right < |p|
    requires RootsLinked(records, p) && Correlated(records[left], records[right])
    requires forall k | 0 <= k < |p| :: Root(q, k) == Merged(Root(p, k), Root(p, left), Root(p, right))
    ensures RootsLinked(records, q)
  {
    var s := Elems(records);
    var l, r := Root(p, left), Root(p, right);
    assert records[left] in s && records[right] in s;
    LinkedStep(s, records[left], records[right]);
    LinkedSymm(s, records[left], records[l]);
    LinkedTrans(s, records[l], records[left], records[right]);
    LinkedTrans(s, records[l], records[right], records[r]);
    LinkedSymm(s, records[l], records[r]);
    forall i | 0 <= i < |q| ensures Linked(s, records[i], records[Root(q, i)]) {
      if Root(q, i) != Root(p, i) {
        LinkedTrans(s, records[i], records[Root(p, i)], records[Root(q, i)]);
      }
    }
  }

  function SetDefault<K, V>(m: map<K, V>, k: K, v: V): map<K, V> {
    if k in m then m else m[k := v]
  }

  /** Recording a first owner takes no owner away from an earlier run. */
  lemma OwnedExtends(records: seq<Run>, p: seq<nat>, fam: map<string, nat>, exact: map<(string, string), nat>, k: nat)
    requires Descending(p) && |p| == |records| && k < |p| && Owners(records, fam, exact)
    requires forall i: nat | i < k :: Owned(records, p, fam, exact, i)
    ensures var fam', exact' := SetDefault(fam, FamilyOf(records[k]), k), SetDefault(exact, ExactOf(records[k]), k);
            Owners(records, fam', exact') && forall i: nat | i < k :: Owned(records, p, fam', exact', i)
  {
    var fam', exact' := SetDefault(fam, FamilyOf(records[k]), k), SetDefault(exact, ExactOf(records[k]), k);
    forall i: nat | i < k ensures Owned(records, p, fam', exact', i) {
      assert Owned(records, p, fam, exact, i);
    }
  }

  lemma OwnedOne(records: seq<Run>, p: seq<nat>, q: seq<nat>, r: seq<nat>,
                 fam: map<string, nat>, exact: map<(string, string), nat>, k: nat, i: nat)
    requires Descending(p) && Descending(q) && Descending(r) && |p| == |q| == |r| == |records| && k < |p| && i <= k
    requires FamilyOf(records[k]) in fam && ExactOf(records[k]) in exact
    requires fam[FamilyOf(records[k])] < |p| && exact[ExactOf(records[k])] < |p|
    requires i < k ==> Owned(records, p, fam, exact, i)
    requires forall j | 0 <= j < |p| :: Root(q, j) == Merged(Root(p, j), Root(p, k), Root(p, fam[FamilyOf(records[k])]))
    requires forall j | 0 <= j < |p| ::
               Root(r, j) == Merged(Root(q, j), Root(q, k), Root(q, exact[ExactOf(records[k])]))
    ensures Owned(records, r, fam, exact, i)
  {
  }

  /** After uniting run k with both its owners, it and all earlier runs share their owners' roots. */
  lemma OwnedNext(records: seq<Run>, p: seq<nat>, q: seq<nat>, r: seq<nat>,
                  fam: map<string, nat>, exact: map<(string, string), nat>, k: nat)
    requires Descending(p) && Descending(q) && Descending(r) && |p| == |q| == |r| == |records| && k < |p|
    requires FamilyOf(records[k]) in fam && ExactOf(records[k]) in exact
    requires fam[FamilyOf(records[k])] < |p| && exact[ExactOf(records[k])] < |p|
    requires forall i: nat | i < k :: Owned(records, p, fam, exact, i)
    requires forall j | 0 <= j < |p| :: Root(q, j) == Merged(Root(p, j), Root(p, k), Root(p, fam[FamilyOf(records[k])]))
    requires forall j | 0 <= j < |p| ::
               Root(r, j) == Merged(Root(q, j), Root(q, k), Root(q, exact[ExactOf(records[k])]))
    ensures forall i: nat | i < k + 1 :: Owned(records, r, fam, exact, i)
  {
    forall i: nat | i < k + 1 ensures Owned(records, r, fam, exact, i) {
      OwnedOne(records, p, q, r, fam, exact, k, i);
    }
  }

  /** The linking loop: each run is united with the first owner of its family and of its exact
      model only, yet all correlated runs end under one root. */
  method LinkOwners(records: seq<Run>, parents: array<nat>)
    requires parents[..] == seq(|records|, i => i)
    modifies parents
    ensures Descending(parents[..])
    ensures RootsDecide(records, parents[..])
  {
    var familyOwner: map<string, nat> := map[];
    var exactOwner: map<(string, string), nat> := map[];
    SelfRoots(records, parents[..]);
    for index := 0 to |records|
      invariant Descending(parents[..]) && RootsLinked(records, parents[..])
      invariant Owners(records, familyOwner, exactOwner)
      invariant forall i: nat | i < index :: Owned(records, parents[..], familyOwner, exactOwner, i)
    {
      var family, exact := FamilyOf(records[index]), ExactOf(records[index]);
      ghost var p := parents[..];
      OwnedExtends(records, p, familyOwner, exactOwner, index);
      familyOwner := SetDefault(familyOwner, family, index);
      exactOwner := SetDefault(exactOwner, exact, index);
      Union(parents, index, familyOwner[family]);
      UnionLinks(records, p, parents[..], index, familyOwner[family]);
      ghost var q := parents[..];
      Union(parents, index, exactOwner[exact]);
      UnionLinks(records, q, parents[..], index, exactOwner[exact]);
      OwnedNext(records, p, q, parents[..], familyOwner, exactOwner, index);
    }
    OwnersDecide(records, parents[..], familyOwner, exactOwner);
  }

  lemma SelfRoots(records: seq<Run>, p: seq<nat>)
    requires p == seq(|records|, i => i)
    ensures Descending(p) && RootsLinked(records, p)
  {
    forall i | 0 <= i < |p| ensures Linked(Elems(records), records[i], records[Root(p, i)]) {
      assert records[i] in Elems(records);
      LinkedStep(Elems(records), records[i], records[i]);
    }
  }

  ghost predicate RootsDecide(records: seq<Run>, p: seq<nat>)
    requires Descending(p)
  {
    && |p| == |records|
    && forall i, j | 0 <= i < |p| && 0 <= j < |p| ::
         Root(p, i) == Root(p, j) <==> Linked(Elems(records), records[i], records[j])
  }

  lemma {:induction false} ChainSameRoot(records: seq<Run>, p: seq<nat>, fam: map<string, nat>,
                                         exact: map<(string, string), nat>, c: seq<Run>, i: nat, j: nat)
    requires Descending(p) && |p| == |records| && i < |p| && j < |p|
    requires forall k: nat | k < |p| :: Owned(records, p, fam, exact, k)
    requires Chain(Elems(records), records[i], c, records[j])
    ensures Root(p, i) == Root(p, j)
    decreases |c|
  {
    if |c| == 1 {
      assert Owned(records, p, fam, exact, i) && Owned(records, p, fam, exact, j);
    } else {
      assert c[1] in Elems(records);
      var m :| 0 <= m < |records| && records[m] == c[1];
      assert Correlated(c[0], c[1]);
      assert Owned(records, p, fam, exact, i) && Owned(records, p, fam, exact, m);
      assert Chain(Elems(records), records[m], c[1..], records[j]);
      ChainSameRoot(records, p, fam, exact, c[1..], m, j);
    }
  }

  lemma OwnersDecide(records: seq<Run>, p: seq<nat>, fam: map<string, nat>, exact: map<(string, string), nat>)
    requires Descending(p) && |p| == |records| && RootsLinked(records, p)
    requires forall k: nat | k < |p| :: Owned(records, p, fam, exact, k)
    ensures RootsDecide(records, p)
  {
    var s := Elems(records);
    forall i, j | 0 <= i < |p| && 0 <= j < |p|
      ensures Root(p, i) == Root(p, j) <==> Linked(s, records[i], records[j])
    {
      if Root(p, i) == Root(p, j) {
        LinkedSymm(s, records[j], records[Root(p, j)]);
        LinkedTrans(s, records[i], records[Root(p, i)], records[j]);
      }
      if Linked(s, records[i], records[j]) {
        var c :| Chain(s, records[i], c, records[j]);
        ChainSameRoot(records, p, fam, exact, c, i, j);
      }
    }
  }

  // ----- grouping -----

  ghost predicate FromRoot(records: seq<Run>, p: seq<nat>, k: nat, r: nat, x: Run)
    requires Descending(p) && |p| == |records|
  {
    exists i :: 0 <= i < k && i < |p| && Root(p, i) == r && records[i] == x
  }

  ghost predicate Grouped(records: seq<Run>, p: seq<nat>, k: nat, order: seq<nat>, grouped: map<nat, seq<Run>>)
    requires Descending(p) && |p| == |records| && k <= |p|
  {
    && Elems(order) == grouped.Keys && Distinct(order)
    && (forall r | r in grouped :: r < |p| && p[r] == r)
    && (forall r, x | r in grouped && x in grouped[r] :: FromRoot(records, p, k, r, x))
    && (forall i | 0 <= i < k :: Root(p, i) in grouped && records[i] in grouped[Root(p, i)])
  }

  ghost function Appended(grouped: map<nat, seq<Run>>, r: nat, x: Run): map<nat, seq<Run>> {
    if r in grouped then grouped[r := grouped[r] + [x]] else grouped[r := [x]]
  }

  lemma SourcesNext(records: seq<Run>, p: seq<nat>, k: nat, grouped: map<nat, seq<Run>>, q: nat, x: Run)
    requires Descending(p) && |p| == |records| && k < |p|
    requires forall r, y | r in grouped && y in grouped[r] :: FromRoot(records, p, k, r, y)
    requires q in Appended(grouped, Root(p, k), records[k]) && x in Appended(grouped, Root(p, k), records[k])[q]
    ensures FromRoot(records, p, k + 1, q, x)
  {
    FromRootNext(records, p, k, q, x);
  }

  lemma PlacedNext(records: seq<Run>, p: seq<nat>, k: nat, grouped: map<nat, seq<Run>>, i: nat)
    requires Descending(p) && |p| == |records| && i <= k < |p|
    requires i < k ==> Root(p, i) in grouped && records[i] in grouped[Root(p, i)]
    ensures var after := Appended(grouped, Root(p, k), records[k]);
            Root(p, i) in after && records[i] in after[Root(p, i)]
  {
    hide Root;
    var r := Root(p, k);
    var after := Appended(grouped, r, records[k]);
    assert after[r][|after[r]| - 1] == records[k];
    if i < k && Root(p, i) == r {
      assert records[i] in grouped[r];
    }
  }

  lemma FromRootNext(records: seq<Run>, p: seq<nat>, k: nat, r: nat, x: Run)
    requires Descending(p) && |p| == |records| && k < |p|
    requires FromRoot(records, p, k, r, x) || (r == Root(p, k) && x == records[k])
    ensures FromRoot(records, p, k + 1, r, x)
  {
  }

  /** `grouped.setdefault(root, []).append(record)`. */
  lemma GroupNext(records: seq<Run>, p: seq<nat>, k: nat, order: seq<nat>, grouped: map<nat, seq<Run>>,
                  order': seq<nat>, grouped': map<nat, seq<Run>>)
    requires Descending(p) && |p| == |records| && k < |p|
    requires Grouped(records, p, k, order, grouped)
    requires grouped' == Appended(grouped, Root(p, k), records[k])
    requires order' == if Root(p, k) in grouped then order else order + [Root(p, k)]
    ensures Grouped(records, p, k + 1, order', grouped')
  {
    hide Root, FromRoot;
    var r := Root(p, k);
    assert r in Elems(order) <==> r in order;
    assert Elems(order') == grouped'.Keys;
    forall q, x | q in grouped' && x in grouped'[q] ensures FromRoot(records, p, k + 1, q, x) {
      SourcesNext(records, p, k, grouped, q, x);
    }
    forall i | 0 <= i < k + 1 ensures Root(p, i) in grouped' && records[i] in grouped'[Root(p, i)] {
      PlacedNext(records, p, k, grouped, i);
    }
  }

  method Group(records: seq<Run>, parents: array<nat>) returns (order: seq<nat>, grouped: map<nat, seq<Run>>)
    requires Descending(parents[..]) && parents.Length == |records|
    modifies parents
    ensures Grouped(records, old(parents[..]), |records|, order, grouped)
  {
    order, grouped := [], map[];
    ghost var p := parents[..];
    for index := 0 to |records|
      invariant Descending(parents[..]) && SameRoots(p, parents[..])
      invariant Grouped(records, p, index, order, grouped)
    {
      var root := Find(parents, index);
      ghost var order0, grouped0 := order, grouped;
      if root in grouped {
        grouped := grouped[root := grouped[root] + [records[index]]];
      } else {
        order, grouped := order + [root], grouped[root := [records[index]]];
      }
      GroupNext(records, p, index, order0, grouped0, order, grouped);
    }
  }

  /** One group is one component. */
  lemma GroupIsComponent(records: seq<Run>, p: seq<nat>, order: seq<nat>, grouped: map<nat, seq<Run>>, r: nat)
    requires Descending(p) && RootsDecide(records, p) && Grouped(records, p, |p|, order, grouped) && r in grouped
    ensures Elems(grouped[r]) == Component(Elems(records), records[r])
  {
    var s := Elems(records);
    assert Root(p, r) == r;
    forall x ensures x in grouped[r] <==> x in s && Linked(s, records[r], x) {
      if x in grouped[r] {
        assert FromRoot(records, p, |p|, r, x);
        var i :| 0 <= i < |p| && Root(p, i) == r && records[i] == x;
      }
      if x in s && Linked(s, records[r], x) {
        var i :| 0 <= i < |p| && records[i] == x;
        assert Root(p, i) == Root(p, r);
      }
    }
  }

  /** Two components never share a family, so their sort keys differ. */
  lemma KeysDiffer(s: set<Run>, a: Run, b: Run, v: Witness, w: Witness)
    requires a in s && b in s && !Linked(s, a, b)
    requires Summarises(v, Component(s, a)) && Summarises(w, Component(s, b))
    ensures forall f | f in v.families :: f !in w.families
    ensures forall e | e in v.exactModels :: e !in w.exactModels
    ensures v.families != w.families && (WitnessLess(v, w) || WitnessLess(w, v))
  {
    ComponentsMeet(s, a, b);
    forall f | f in v.families && f in w.families ensures false {
      assert f in Elems(v.families) && f in Elems(w.families);
      var x :| x in Component(s, a) && FamilyOf(x) == f;
      var y :| y in Component(s, b) && FamilyOf(y) == f;
      Bridge(s, a, x, y, b);
    }
    forall e | e in v.exactModels && e in w.exactModels ensures false {
      assert e in Elems(v.exactModels) && e in Elems(w.exactModels);
      var x :| x in Component(s, a) && ExactOf(x) == e;
      var y :| y in Component(s, b) && ExactOf(y) == e;
      Bridge(s, a, x, y, b);
    }
    assert FamilyOf(a) in Elems(v.families);
    assert FamilyOf(a) in v.families;
    StringsOrder();
  }

  lemma Bridge(s: set<Run>, a: Run, x: Run, y: Run, b: Run)
    requires Linked(s, a, x) && Correlated(x, y) && Linked(s, b, y)
    ensures Linked(s, a, b)
  {
    LinkedMembers(s, a, x);
    LinkedMembers(s, b, y);
    LinkedStep(s, x, y);
    LinkedTrans(s, a, x, y);
    LinkedSymm(s, b, y);
    LinkedTrans(s, a, y, b);
  }

  /** Record i repeats an identifier, and no earlier record is refused. */
  ghost predicate RepeatAt(runs: seq<Run>, i: nat) {
    && i < |runs| && (forall j | 0 <= j <= i :: Portable(runs[j].id))
    && (forall j, k | 0 <= j < k < i :: runs[j].id != runs[k].id)
    && exists j | 0 <= j < i :: runs[j].id == runs[i].id
  }

  /** `for run_id, identity in runs`: the accepted records, or the first refusal. */
  method Admit(runs: seq<Run>) returns (refusal: Collapse)
    ensures refusal.Collapsed? <==> (forall r | r in runs :: Portable(r.id)) && Distinct(Map(IdOf, runs))
    ensures refusal.DuplicateRun? ==> !Distinct(Map(IdOf, runs))
    ensures refusal.DuplicateRun? <==> exists i: nat :: RepeatAt(runs, i)
    ensures refusal.MalformedComponent? ==> exists r :: r in runs && !Portable(r.id)
  {
    var seen: set<string> := {};
    for i := 0 to |runs|
      invariant forall j | 0 <= j < i :: Portable(runs[j].id) && runs[j].id in seen
      invariant forall x | x in seen :: exists j :: 0 <= j < i && runs[j].id == x
      invariant forall j, k | 0 <= j < k < i :: runs[j].id != runs[k].id
    {
      if !Portable(runs[i].id) {
        assert runs[i] in runs;
        return MalformedComponent;
      }
      if runs[i].id in seen {
        var j :| 0 <= j < i && runs[j].id == runs[i].id;
        assert Map(IdOf, runs)[j] == Map(IdOf, runs)[i];
        assert RepeatAt(runs, i);
        return DuplicateRun;
      }
      seen := seen + {runs[i].id};
    }
    return Collapsed([]);
  }

  ghost predicate Acceptable(runs: seq<Run>) {
    && (forall r | r in runs :: Portable(r.id) && PortableIdentity(r.identity))
    && Distinct(Map(IdOf, runs))
  }

  /** Code points of letters and digits. */
  predicate Plain(c: char) {
    48 <= c as int <= 57 || 65 <= c as int <= 90 || 97 <= c as int <= 122
  }

  lemma PortableExact(s: string)
    ensures Portable(s) <==>
            && 1 <= |s| <= 256
            && forall i | 0 <= i < |s| :: Plain(s[i]) || (i > 0 && s[i] in {'.', '_', ':', '/', '+', '@', '-'})
  {
    forall i | 0 <= i < |s|
      ensures s[i] in s && (s[i] in "._:/+@-" <==> s[i] in {'.', '_', ':', '/', '+', '@', '-'})
    {
      MarkExact(s[i]);
    }
  }

  lemma MarkExact(c: char)
    ensures c in "._:/+@-" <==> c in {'.', '_', ':', '/', '+', '@', '-'}
  {
    var marks := "._:/+@-";
    assert marks[0] == '.' && marks[1] == '_' && marks[2] == ':' && marks[3] == '/';
    assert marks[4] == '+' && marks[5] == '@' && marks[6] == '-';
  }

  lemma AcceptableExact(runs: seq<Run>)
    ensures Acceptable(runs) <==>
            && (forall i, j | 0 <= i < j < |runs| :: runs[i].id != runs[j].id)
            && forall r, text | r in runs &&
                 text in {r.id, r.identity.provider, r.identity.model, r.identity.family, r.identity.operator} ::
                 Portable(text)
  {
    hide Portable;
    assert forall i | 0 <= i < |runs| :: Map(IdOf, runs)[i] == runs[i].id;
    if Acceptable(runs) {
      forall i, j | 0 <= i < j < |runs| ensures runs[i].id != runs[j].id {
        assert Map(IdOf, runs)[i] != Map(IdOf, runs)[j];
      }
    }
  }

  /** `collapse_model_witnesses`: it succeeds exactly on portable, uniquely identified runs, and
      then returns one witness per connected component of the full correlation relation. */
  method CollapseModelWitnesses(runs: seq<Run>) returns (result: Collapse)
    ensures result.Collapsed? <==> Acceptable(runs)
    ensures result.Collapsed? ==> Collapses(Elems(runs), result.witnesses)
    ensures result.DuplicateRun? <==> exists i: nat :: RepeatAt(runs, i)
  {
    result := Admit(runs);
    if !result.Collapsed? {
      return;
    }
    var parents := new nat[|runs|](i => i);
    assert parents[..] == seq(|runs|, i => i);
    LinkOwners(runs, parents);
    ghost var p := parents[..];
    var order, grouped := Group(runs, parents);
    var witnesses := [];
    for i := 0 to |order|
      invariant |witnesses| == i
      invariant forall j | 0 <= j < i :: order[j] in grouped && witnesses[j] == Build(grouped[order[j]])
    {
      assert order[i] in Elems(order);
      witnesses := witnesses + [Build(grouped[order[i]])];
    }
    if exists r | r in runs :: !PortableIdentity(r.identity) {
      return MalformedComponent;
    }
    WitnessOrder();
    GroupsCollapse(runs, p, order, grouped, witnesses);
    return Collapsed(SortBy(WitnessLess, witnesses));
  }

  lemma GroupsComparable(records: seq<Run>, p: seq<nat>, order: seq<nat>, grouped: map<nat, seq<Run>>, ws: seq<Witness>)
    requires Descending(p) && RootsDecide(records, p) && Grouped(records, p, |p|, order, grouped)
    requires |ws| == |order|
    requires forall j | 0 <= j < |ws| :: order[j] in grouped &&
               Summarises(ws[j], Component(Elems(records), records[order[j]]))
    ensures Comparable(WitnessLess, ws)
  {
    forall i, j | 0 <= i < j < |ws| ensures WitnessLess(ws[i], ws[j]) || WitnessLess(ws[j], ws[i]) {
      assert order[i] != order[j];
      assert Root(p, order[i]) == order[i] && Root(p, order[j]) == order[j];
      KeysDiffer(Elems(records), records[order[i]], records[order[j]], ws[i], ws[j]);
    }
  }

  lemma GroupsCollapse(records: seq<Run>, p: seq<nat>, order: seq<nat>, grouped: map<nat, seq<Run>>, ws: seq<Witness>)
    requires Descending(p) && RootsDecide(records, p) && Grouped(records, p, |p|, order, grouped)
    requires |ws| == |order|
    requires forall j | 0 <= j < |order| :: order[j] in grouped && ws[j] == Build(grouped[order[j]])
    ensures Collapses(Elems(records), SortBy(WitnessLess, ws))
  {
    var s, r := Elems(records), SortBy(WitnessLess, ws);
    forall j | 0 <= j < |ws| ensures records[order[j]] in s && Summarises(ws[j], Component(s, records[order[j]])) {
      GroupIsComponent(records, p, order, grouped, order[j]);
      BuildSummarises(grouped[order[j]]);
    }
    GroupsComparable(records, p, order, grouped, ws);
    WitnessOrder();
    SortComparable(WitnessLess, ws);
    SortedCollapses(records, p, order, grouped, ws, r);
  }

  lemma SortedCollapses(records: seq<Run>, p: seq<nat>, order: seq<nat>, grouped: map<nat, seq<Run>>,
                        ws: seq<Witness>, r: seq<Witness>)
    requires Descending(p) && RootsDecide(records, p) && Grouped(records, p, |p|, order, grouped)
    requires |ws| == |order| && Elems(r) == Elems(ws) && Ascending(WitnessLess, r)
    requires forall j | 0 <= j < |ws| :: order[j] in grouped &&
               Summarises(ws[j], Component(Elems(records), records[order[j]]))
    ensures Collapses(Elems(records), r)
  {
    var s := Elems(records);
    forall w | w in r ensures SummaryOfSome(s, w) {
      assert w in Elems(ws);
      var j :| 0 <= j < |ws| && ws[j] == w;
      assert records[order[j]] in s;
    }
    forall a | a in s ensures HasSummary(s, r, a) {
      var i :| 0 <= i < |records| && records[i] == a;
      var root := Root(p, i);
      assert root in Elems(order);
      var j :| 0 <= j < |order| && order[j] == root;
      assert Root(p, root) == root;
      assert records[root] in s;
      ComponentsMeet(s, a, records[root]);
      assert ws[j] in Elems(r);
      assert ws[j] in r;
    }
  }

  // ----- what a collapse means -----

  ghost predicate UniqueIds(s: set<Run>) {
    forall a, b | a in s && b in s && a.id == b.id :: a == b
  }

  /** Each run is named by exactly one witness, and two runs share theirs exactly when a chain
      of shared families or shared (provider, model) pairs links them. */
  lemma WitnessPartition(s: set<Run>, ws: seq<Witness>, a: Run, b: Run)
    requires Collapses(s, ws) && UniqueIds(s) && a in s && b in s
    ensures exists i :: 0 <= i < |ws| && a.id in ws[i].runIds
    ensures forall i, j | 0 <= i < |ws| && 0 <= j < |ws| && a.id in ws[i].runIds && b.id in ws[j].runIds ::
              i == j <==> Linked(s, a, b)
  {
    assert HasSummary(s, ws, a);
    var w :| w in ws && Summarises(w, Component(s, a));
    ComponentsMeet(s, a, a);
    assert IdOf(a) in Elems(w.runIds);
    var k :| 0 <= k < |ws| && ws[k] == w;
    assert a.id in ws[k].runIds;
    forall i, j | 0 <= i < |ws| && 0 <= j < |ws| && a.id in ws[i].runIds && b.id in ws[j].runIds
      ensures i == j <==> Linked(s, a, b)
    {
      NamedSummarises(s, ws, a, i);
      NamedSummarises(s, ws, b, j);
      ComponentsMeet(s, a, b);
      if Linked(s, a, b) {
        SummaryUnique(ws[i], ws[j], Component(s, a));
        WitnessOrder();
        AscendingPosition(WitnessLess, ws, i, j);
      } else {
        KeysDiffer(s, a, b, ws[i], ws[j]);
      }
    }
  }

  lemma NamedSummarises(s: set<Run>, ws: seq<Witness>, a: Run, i: nat)
    requires Collapses(s, ws) && UniqueIds(s) && a in s && i < |ws| && a.id in ws[i].runIds
    ensures Summarises(ws[i], Component(s, a))
  {
    assert SummaryOfSome(s, ws[i]);
    var c :| c in s && Summarises(ws[i], Component(s, c));
    assert a.id in Elems(ws[i].runIds);
    var x :| x in Component(s, c) && IdOf(x) == a.id;
    assert x == a;
    ComponentsMeet(s, c, a);
  }

  lemma ComponentKey(s: set<Run>, w: Witness, c: set<Run>, d: set<Run>)
    requires c in Components(s) && d in Components(s) && Summarises(w, c) && Summarises(w, d)
    ensures c == d
  {
    var a :| a in s && c == Component(s, a);
    var b :| b in s && d == Component(s, b);
    ComponentsMeet(s, a, b);
    if !Linked(s, a, b) {
      KeysDiffer(s, a, b, w, w);
    }
  }

  /** There are as many witnesses as components. */
  lemma WitnessCount(s: set<Run>, ws: seq<Witness>)
    requires Collapses(s, ws)
    ensures |ws| == |Components(s)|
  {
    var rel := (w: Witness, c: set<Run>) => Summarises(w, c);
    var cs := Components(s);
    forall w | w in Elems(ws) ensures HasRight(rel, w, cs) {
      assert SummaryOfSome(s, w);
      var a :| a in s && Summarises(w, Component(s, a));
      assert Component(s, a) in cs && rel(w, Component(s, a));
    }
    forall c | c in cs ensures HasLeft(rel, Elems(ws), c) {
      var a :| a in s && c == Component(s, a);
      assert HasSummary(s, ws, a);
      var w :| w in ws && Summarises(w, c);
      assert w in Elems(ws) && rel(w, c);
    }
    OneWitnessEach(s, Elems(ws), rel);
    SameSize(rel, Elems(ws), cs);
    WitnessOrder();
    SizeMeansDistinct(ws);
  }

  lemma OneWitnessEach(s: set<Run>, ws: set<Witness>, rel: (Witness, set<Run>) -> bool)
    requires forall w, c :: rel(w, c) <==> Summarises(w, c)
    ensures forall w, c, d | w in ws && c in Components(s) && d in Components(s) && rel(w, c) && rel(w, d) :: c == d
    ensures forall v, w, c | v in ws && w in ws && c in Components(s) && rel(v, c) && rel(w, c) :: v == w
  {
    forall w, c, d | w in ws && c in Components(s) && d in Components(s) && rel(w, c) && rel(w, d) ensures c == d {
      ComponentKey(s, w, c, d);
    }
    forall v, w, c | v in ws && w in ws && c in Components(s) && rel(v, c) && rel(w, c) ensures v == w {
      SummaryUnique(v, w, c);
    }
  }

  // ----- one more run -----

  ghost predicate Touches(c: set<Run>, x: Run) {
    exists a :: a in c && Correlated(a, x)
  }

  /** The existing components the new run correlates with. */
  ghost function Touched(s: set<Run>, x: Run): set<set<Run>> {
    set c | c in Components(s) && Touches(c, x)
  }

  lemma LinkedGrows(s: set<Run>, t: set<Run>, a: Run, b: Run)
    requires s <= t && Linked(s, a, b)
    ensures Linked(t, a, b)
  {
    var p :| Chain(s, a, p, b);
    assert Chain(t, a, p, b);
  }

  /** A chain to the new run leaves the old runs at a run correlated with it. */
  lemma {:induction false} FirstContact(s: set<Run>, x: Run, a: Run, p: seq<Run>) returns (c: Run)
    requires a in s && x !in s && Chain(s + {x}, a, p, x)
    ensures Linked(s, a, c) && Correlated(c, x)
    decreases |p|
  {
    LinkedStep(s, a, a);
    assert |p| >= 2 && Correlated(p[0], p[1]);
    if p[1] == x {
      c := a;
    } else {
      assert p[1] in s + {x};
      assert Chain(s + {x}, p[1], p[1..], x);
      c := FirstContact(s, x, p[1], p[1..]);
      LinkedStep(s, a, p[1]);
      LinkedTrans(s, a, p[1], c);
    }
  }

  lemma ReachesNew(s: set<Run>, x: Run, a: Run)
    requires a in s && x !in s
    ensures Linked(s + {x}, a, x) <==> Touches(Component(s, a), x)
  {
    var t := s + {x};
    if Linked(t, a, x) {
      var p :| Chain(t, a, p, x);
      var c := FirstContact(s, x, a, p);
      LinkedMembers(s, a, c);
      assert c in Component(s, a);
    }
    if Touches(Component(s, a), x) {
      var c :| c in Component(s, a) && Correlated(c, x);
      LinkedGrows(s, t, a, c);
      LinkedStep(t, c, x);
      LinkedTrans(t, a, c, x);
    }
  }

  lemma {:induction false} AvoidsNew(s: set<Run>, x: Run, a: Run, p: seq<Run>, b: Run)
    requires a in s && x !in s && Chain(s + {x}, a, p, b) && !Linked(s + {x}, a, x)
    ensures Linked(s, a, b)
    decreases |p|
  {
    LinkedStep(s, a, a);
    if |p| > 1 {
      assert Correlated(p[0], p[1]) && p[1] in s + {x};
      LinkedStep(s + {x}, a, p[1]);
      if Linked(s + {x}, p[1], x) {
        LinkedTrans(s + {x}, a, p[1], x);
      }
      LinkedStep(s + {x}, p[1], p[1]);
      assert Chain(s + {x}, p[1], p[1..], b);
      AvoidsNew(s, x, p[1], p[1..], b);
      LinkedStep(s, a, p[1]);
      LinkedTrans(s, a, p[1], b);
    }
  }

  /** A component the new run does not touch is unchanged; the touched ones join it. */
  lemma ComponentAfter(s: set<Run>, x: Run, a: Run)
    requires a in s && x !in s
    ensures Component(s + {x}, a) ==
            if Touches(Component(s, a), x) then Component(s + {x}, x) else Component(s, a)
  {
    var t := s + {x};
    ReachesNew(s, x, a);
    if Touches(Component(s, a), x) {
      ComponentsMeet(t, a, x);
    } else {
      forall b ensures b in Component(t, a) <==> b in Component(s, a) {
        if b in Component(t, a) {
          var p :| Chain(t, a, p, b);
          AvoidsNew(s, x, a, p, b);
        }
        if b in Component(s, a) {
          LinkedGrows(s, t, a, b);
        }
      }
    }
  }

  lemma ComponentsAfter(s: set<Run>, x: Run)
    requires x !in s
    ensures Components(s + {x}) == Components(s) - Touched(s, x) + {Component(s + {x}, x)}
    ensures Component(s + {x}, x) !in Components(s)
  {
    var t := s + {x};
    ComponentsMeet(t, x, x);
    forall c | c in Components(t) ensures c in Components(s) - Touched(s, x) + {Component(t, x)} {
      var a :| a in t && c == Component(t, a);
      if a != x {
        ComponentAfter(s, x, a);
      }
    }
    forall c | c in Components(s) - Touched(s, x) ensures c in Components(t) {
      var a :| a in s && c == Component(s, a);
      ComponentAfter(s, x, a);
      assert a in t;
    }
    forall c | c in Components(s) ensures x !in c {
      var a :| a in s && c == Component(s, a);
    }
  }

  /** All runs of one family, or of one exact model, are in one component. */
  lemma TouchedOnce(s: set<Run>, x: Run, byFamily: bool, c: set<Run>, d: set<Run>)
    requires c in Components(s) && d in Components(s)
    requires TouchesBy(c, x, byFamily) && TouchesBy(d, x, byFamily)
    ensures c == d
  {
    var a :| a in s && c == Component(s, a);
    var b :| b in s && d == Component(s, b);
    var u :| u in c && if byFamily then FamilyOf(u) == FamilyOf(x) else ExactOf(u) == ExactOf(x);
    var v :| v in d && if byFamily then FamilyOf(v) == FamilyOf(x) else ExactOf(v) == ExactOf(x);
    Bridge(s, a, u, v, b);
    ComponentsMeet(s, a, b);
  }

  ghost predicate TouchesBy(c: set<Run>, x: Run, byFamily: bool) {
    exists u :: u in c && if byFamily then FamilyOf(u) == FamilyOf(x) else ExactOf(u) == ExactOf(x)
  }

  lemma AtMostOne<T>(cs: set<T>)
    requires forall c, d | c in cs && d in cs :: c == d
    ensures |cs| <= 1
  {
    if cs != {} {
      var c :| c in cs;
      assert cs == {c};
    }
  }

  lemma TouchedAtMostTwo(s: set<Run>, x: Run)
    ensures |Touched(s, x)| <= 2
  {
    var f := set c | c in Components(s) && TouchesBy(c, x, true);
    var e := set c | c in Components(s) && TouchesBy(c, x, false);
    forall c, d | c in f && d in f ensures c == d { TouchedOnce(s, x, true, c, d); }
    forall c, d | c in e && d in e ensures c == d { TouchedOnce(s, x, false, c, d); }
    AtMostOne(f);
    AtMostOne(e);
    forall c | c in Touched(s, x) ensures c in f + e {
      var a :| a in c && Correlated(a, x);
    }
    SubsetSize(Touched(s, x), f + e);
  }

  lemma SubsetSize<T>(a: set<T>, b: set<T>)
    requires a <= b
    ensures |a| <= |b|
  {
    assert b == a + (b - a);
  }

  lemma SwapSize<T>(a: set<T>, out: set<T>, n: T)
    requires out <= a && n !in a
    ensures |a - out + {n}| == |a| - |out| + 1
  {
    assert a == (a - out) + out;
  }

  /** Adding one run changes the number of witnesses by one minus the number (0, 1 or 2) of
      components it touches. */
  lemma OneMoreRun(s: set<Run>, x: Run, before: seq<Witness>, after: seq<Witness>)
    requires x !in s && Collapses(s, before) && Collapses(s + {x}, after)
    ensures |after| == |before| + 1 - |Touched(s, x)| && |Touched(s, x)| <= 2
  {
    WitnessCount(s, before);
    WitnessCount(s + {x}, after);
    ComponentsAfter(s, x);
    TouchedAtMostTwo(s, x);
    SwapSize(Components(s), Touched(s, x), Component(s + {x}, x));
  }

  /** Witnesses stand in the order of their least family: two of them never share one, so the
      run identifiers in the sort key never decide. */
  lemma OrderedByFamily(s: set<Run>, ws: seq<Witness>, i: nat, j: nat)
    requires Collapses(s, ws) && i < j < |ws|
    ensures ws[i].families != [] && ws[j].families != [] && StringLess(ws[i].families[0], ws[j].families[0])
  {
    assert SummaryOfSome(s, ws[i]) && SummaryOfSome(s, ws[j]);
    var a :| a in s && Summarises(ws[i], Component(s, a));
    var b :| b in s && Summarises(ws[j], Component(s, b));
    ComponentsMeet(s, a, b);
    ComponentsMeet(s, b, a);
    assert FamilyOf(a) in Elems(ws[i].families) && FamilyOf(b) in Elems(ws[j].families);
    if Linked(s, a, b) {
      SummaryUnique(ws[i], ws[j], Component(s, a));
      WitnessOrder();
      AscendingPosition(WitnessLess, ws, i, j);
    } else {
      KeysDiffer(s, a, b, ws[i], ws[j]);
      FirstFamilies(ws[i], ws[j]);
    }
  }

  lemma FirstFamilies(v: Witness, w: Witness)
    requires WitnessLess(v, w) && v.families != [] && w.families != [] && forall f | f in v.families :: f !in w.families
    ensures StringLess(v.families[0], w.families[0])
  {
    assert v.families[0] in v.families && w.families[0] in w.families;
    StringsLessMeaning(v.families, w.families);
    PrefixFront(v.families, w.families);
    if k: nat :| k < |v.families| && k < |w.families| && v.families[..k] == w.families[..k] &&
                 StringLess(v.families[k], w.families[k])
    {
      SameFront(v.families, w.families, k);
    }
  }
}
