/** The check of supplied facts, and why it is the right one: a fact map passes its parent rule
    exactly when some nested context realises it. */
module ConditionFacts {
  import opened Prelude
  import opened Text
  import opened ConditionLanguage
  import opened ConditionEvaluation

  const MAX_FACTS: nat := 65536

  /** The parent reference made of the first i segments is itself observed. */
  predicate ObservedParent(facts: Facts, segments: seq<string>, i: nat)
    requires 0 < i <= |segments|
  {
    var parent := Join(segments[..i], '.');
    parent in facts && !facts[parent].Unknown?
  }

  ghost predicate NoObservedParent(facts: Facts, segments: seq<string>) {
    forall i | 0 < i < |segments| :: !ObservedParent(facts, segments, i)
  }

  /** No known reference lies below an observed one. */
  ghost predicate ParentsFree(facts: Facts) {
    forall ref | ref in facts && facts[ref].Known? :: NoObservedParent(facts, Split(ref, '.'))
  }

  ghost predicate Acceptable(facts: Facts) {
    && |facts| <= MAX_FACTS
    && (forall ref | ref in facts :: Reference(ref))
    && ParentsFree(facts)
  }

  /** `_checked_facts`. */
  method CheckedFacts(facts: Facts) returns (checked: Result<Facts>)
    ensures checked.Ok? <==> Acceptable(facts)
    ensures checked.Ok? ==> checked.value == facts
  {
    if |facts| > MAX_FACTS {
      return Err;
    }
    var copy: Facts := map[];
    var rest := facts.Keys;
    while rest != {}
      invariant rest <= facts.Keys && copy.Keys == facts.Keys - rest
      invariant forall ref | ref in copy :: Reference(ref) && copy[ref] == facts[ref]
    {
      var ref :| ref in rest;
      if !Reference(ref) {
        return Err;
      }
      copy := copy[ref := facts[ref]];
      rest := rest - {ref};
    }
    assert copy == facts;
    rest := copy.Keys;
    while rest != {}
      invariant rest <= facts.Keys
      invariant forall ref | ref in facts && ref !in rest && facts[ref].Known? ::
                  NoObservedParent(facts, Split(ref, '.'))
    {
      var ref :| ref in rest;
      if copy[ref].Known? {
        var ok := ParentsUnobserved(copy, Split(ref, '.'));
        if !ok {
          return Err;
        }
      }
      rest := rest - {ref};
    }
    return Ok(copy);
  }

  method ParentsUnobserved(facts: Facts, segments: seq<string>) returns (ok: bool)
    requires segments != []
    ensures ok <==> NoObservedParent(facts, segments)
  {
    for index := 1 to |segments|
      invariant forall i | 0 < i < index :: !ObservedParent(facts, segments, i)
    {
      if ObservedParent(facts, segments, index) {
        return false;
      }
    }
    return true;
  }

  // ----- realising a prefix-free set of observations -----

  type Tree = map<seq<string>, Value>

  ghost predicate Plain(k: Tree) {
    && (forall p | p in k :: p != [] && !k[p].Obj?)
    && forall p, q | p in k && q in k && p <= q :: p == q
  }

  function Heads(k: Tree): set<string>
    requires forall p | p in k :: p != []
  {
    set p | p in k :: p[0]
  }

  ghost function Below(k: Tree, s: string): Tree {
    map p | p in k && |p| > 1 && p[0] == s && [s] + p[1..] == p :: p[1..] := k[p]
  }

  lemma BelowPlain(k: Tree, s: string)
    requires Plain(k)
    ensures Plain(Below(k, s))
    ensures forall q :: q in Below(k, s) <==> q != [] && [s] + q in k
    ensures forall q | q in Below(k, s) :: Below(k, s)[q] == k[[s] + q]
  {
    forall q ensures q in Below(k, s) <==> q != [] && [s] + q in k {
      if q != [] && [s] + q in k {
        assert ([s] + q)[1..] == q;
      }
    }
    forall p, q | p in Below(k, s) && q in Below(k, s) && p <= q ensures p == q {
      assert [s] + p <= [s] + q;
      assert ([s] + p)[1..] == p && ([s] + q)[1..] == q;
    }
  }

  /** The mapping whose paths are the keys of k, no key longer than n. */
  ghost function Realise(k: Tree, n: nat): Value
    requires forall p | p in k :: 0 < |p| <= n
    decreases n
  {
    if n == 0 then Obj(map[])
    else Obj(map s | s in Heads(k) :: if [s] in k then k[[s]] else Realise(Below(k, s), n - 1))
  }

  ghost predicate LeadsToKey(k: Tree, path: seq<string>) {
    exists p :: p in k && path <= p
  }

  lemma LeadsBelow(k: Tree, s: string, rest: seq<string>)
    requires Plain(k) && LeadsToKey(Below(k, s), rest) && rest != []
    ensures LeadsToKey(k, [s] + rest)
  {
    BelowPlain(k, s);
    var q :| q in Below(k, s) && rest <= q;
    assert [s] + rest <= [s] + q;
  }

  /** A path that starts with a one-segment key: only that key itself is found. */
  lemma LookupOneSegment(k: Tree, n: nat, path: seq<string>)
    requires Plain(k) && (forall p | p in k :: 0 < |p| <= n) && path != [] && [path[0]] in k
    ensures Lookup(path, Realise(k, n)) == if path in k then Some(k[path]) else None
  {
    var s := path[0];
    assert [s] in k && [s] <= path && [s][0] == s;
    assert s in Heads(k);
    assert path == [s] + path[1..];
    assert Lookup(path, Realise(k, n)) == Lookup(path[1..], k[[s]]);
    if path[1..] == [] {
      assert path == [s];
    }
  }

  lemma LookupNoHead(k: Tree, n: nat, path: seq<string>)
    requires (forall p | p in k :: 0 < |p| <= n) && path != [] && path[0] !in Heads(k)
    ensures path !in k && Lookup(path, Realise(k, n)) == None
  {
  }

  lemma LookupBelow(k: Tree, n: nat, s: string, rest: seq<string>)
    requires Plain(k) && (forall p | p in k :: 0 < |p| <= n) && s in Heads(k) && [s] !in k
    ensures n > 0 && Plain(Below(k, s)) && forall q | q in Below(k, s) :: 0 < |q| <= n - 1
    ensures Lookup([s] + rest, Realise(k, n)) == Lookup(rest, Realise(Below(k, s), n - 1))
    ensures rest in Below(k, s) <==> rest != [] && [s] + rest in k
    ensures rest in Below(k, s) ==> Below(k, s)[rest] == k[[s] + rest]
  {
    BelowPlain(k, s);
    assert ([s] + rest)[1..] == rest;
  }

  /** Looking up a key finds its value; a path that neither is nor leads to a key is missing. */
  lemma {:induction false} LookupRealised(k: Tree, n: nat, path: seq<string>)
    requires Plain(k) && (forall p | p in k :: 0 < |p| <= n) && path != []
    ensures path in k ==> Lookup(path, Realise(k, n)) == Some(k[path])
    ensures path !in k && !LeadsToKey(k, path) ==> Lookup(path, Realise(k, n)) == None
    decreases n
  {
    hide Realise, Lookup, Plain, Below;
    var s, rest := path[0], path[1..];
    assert path == [s] + rest;
    if s !in Heads(k) {
      LookupNoHead(k, n, path);
    } else if [s] in k {
      LookupOneSegment(k, n, path);
    } else {
      var p :| p in k && p[0] == s;
      if rest == [] {
        assert path == [s] && path <= p;
      } else {
        LookupBelow(k, n, s, rest);
        LookupRealised(Below(k, s), n - 1, rest);
        if LeadsToKey(Below(k, s), rest) {
          LeadsBelow(k, s, rest);
        }
      }
    }
  }

  ghost function KnownPaths(facts: Facts): Tree {
    SplitsApart();
    map ref | ref in facts && facts[ref].Known? :: Split(ref, '.') := Observed(facts[ref].value)
  }

  lemma SplitsApart()
    ensures forall a, b | Split(a, '.') == Split(b, '.') :: a == b
  {
    forall a, b | Split(a, '.') == Split(b, '.') ensures a == b {
      SplitInjective(a, b, '.');
    }
  }

  lemma KnownPath(facts: Facts, p: seq<string>) returns (ref: string)
    requires p in KnownPaths(facts)
    ensures ref in facts && facts[ref].Known? && p == Split(ref, '.') &&
            KnownPaths(facts)[p] == Observed(facts[ref].value)
  {
    SplitsApart();
    ref :| ref in facts && facts[ref].Known? && p == Split(ref, '.');
  }

  /** A reference whose segments are a proper prefix is one of the parents looked at. */
  lemma PrefixIsParent(facts: Facts, a: string, ref: string)
    requires Split(a, '.') <= Split(ref, '.') && a != ref && a in facts && !facts[a].Unknown?
    ensures !NoObservedParent(facts, Split(ref, '.'))
  {
    var segments, i := Split(ref, '.'), |Split(a, '.')|;
    assert segments[..i] == Split(a, '.');
    JoinSplit(a, '.');
    if i == |segments| {
      assert segments[..i] == segments;
      SplitInjective(a, ref, '.');
    }
    assert ObservedParent(facts, segments, i);
  }

  lemma KnownPlain(facts: Facts)
    requires ParentsFree(facts)
    ensures Plain(KnownPaths(facts))
  {
    var k := KnownPaths(facts);
    forall p | p in k ensures p != [] && !k[p].Obj? {
      var ref := KnownPath(facts, p);
    }
    forall p, q | p in k && q in k && p <= q ensures p == q {
      var a := KnownPath(facts, p);
      var b := KnownPath(facts, q);
      if a != b {
        PrefixIsParent(facts, a, b);
      }
    }
  }

  lemma KnownLength(facts: Facts, p: seq<string>)
    requires (forall ref | ref in facts :: Reference(ref)) && p in KnownPaths(facts)
    ensures 0 < |p| <= 16
  {
    var ref := KnownPath(facts, p);
  }

  lemma AbsentPath(facts: Facts, ref: string)
    requires ParentsFree(facts) && ref in facts && facts[ref].Absent?
    ensures !LeadsToKey(KnownPaths(facts), Split(ref, '.'))
    ensures Split(ref, '.') !in KnownPaths(facts)
  {
    forall p | p in KnownPaths(facts) ensures !(Split(ref, '.') <= p) {
      var known := KnownPath(facts, p);
      if Split(ref, '.') <= p {
        PrefixIsParent(facts, ref, known);
      }
    }
  }

  /** An accepted fact map is realised by some nested context. */
  lemma AcceptedRealised(facts: Facts) returns (context: Value)
    requires Acceptable(facts)
    ensures Agrees(facts, context)
  {
    var k := KnownPaths(facts);
    KnownPlain(facts);
    forall p | p in k ensures 0 < |p| <= 16 {
      KnownLength(facts, p);
    }
    context := Realise(k, 16);
    forall ref | ref in facts
      ensures facts[ref].Known? ==> Lookup(Split(ref, '.'), context) == Some(Observed(facts[ref].value))
      ensures facts[ref].Absent? ==> Lookup(Split(ref, '.'), context) == None
    {
      LookupRealised(k, 16, Split(ref, '.'));
      if facts[ref].Absent? {
        AbsentPath(facts, ref);
      } else if facts[ref].Known? {
        KnownFound(facts, ref);
      }
    }
  }

  lemma KnownFound(facts: Facts, ref: string)
    requires ref in facts && facts[ref].Known?
    ensures Split(ref, '.') in KnownPaths(facts)
    ensures KnownPaths(facts)[Split(ref, '.')] == Observed(facts[ref].value)
  {
    SplitsApart();
  }

  /** A path with a continuation ends at a mapping. */
  lemma {:induction false} LookupPrefix(p: seq<string>, q: seq<string>, c: Value)
    requires q != [] && Lookup(p + q, c).Some?
    ensures Lookup(p, c).Some? && Lookup(p, c).value.Obj?
  {
    if p == [] {
      assert p + q == q;
    } else {
      assert (p + q)[1..] == p[1..] + q;
      LookupPrefix(p[1..], q, c.fields[p[0]]);
    }
  }

  /** An observed parent is a scalar, an array or missing, so nothing can be known below it. */
  lemma ParentBlocks(facts: Facts, context: Value, ref: string, i: nat)
    requires Agrees(facts, context) && ref in facts && facts[ref].Known? && 0 < i < |Split(ref, '.')|
    ensures !ObservedParent(facts, Split(ref, '.'), i)
  {
    var segments := Split(ref, '.');
    var parent := Join(segments[..i], '.');
    forall j | 0 <= j < i ensures '.' !in segments[..i][j] {
      SplitParts(ref, '.', j);
    }
    SplitJoin(segments[..i], '.');
    assert segments == segments[..i] + segments[i..];
    LookupPrefix(segments[..i], segments[i..], context);
  }

  /** The check is exact: a well-formed fact map passes if and only if it is realisable. */
  lemma AcceptedIffRealisable(facts: Facts)
    requires |facts| <= MAX_FACTS && forall ref | ref in facts :: Reference(ref)
    ensures Acceptable(facts) <==> exists context :: Agrees(facts, context)
  {
    if Acceptable(facts) {
      var context := AcceptedRealised(facts);
    }
    if context :| Agrees(facts, context) {
      forall ref | ref in facts && facts[ref].Known? ensures NoObservedParent(facts, Split(ref, '.')) {
        forall i | 0 < i < |Split(ref, '.')| ensures !ObservedParent(facts, Split(ref, '.'), i) {
          ParentBlocks(facts, context, ref, i);
        }
      }
    }
  }
}
