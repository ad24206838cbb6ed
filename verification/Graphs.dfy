/** Directed graphs as adjacency tuples, with walks, reachability and cycles.
    A key maps to its ordered targets; a target need not be a key itself. */
module Graphs {
  import opened Ordering

  type Graph = map<string, seq<string>>

  function Succ(g: Graph, n: string): seq<string> {
    if n in g then g[n] else []
  }

  predicate Edge(g: Graph, a: string, b: string) {
    b in Succ(g, a)
  }

  ghost predicate Walk(g: Graph, p: seq<string>) {
    p != [] && forall i, j | 0 <= i < j < |p| && j == i + 1 :: Edge(g, p[i], p[j])
  }

  ghost predicate WalkFrom(g: Graph, a: string, p: seq<string>, b: string) {
    Walk(g, p) && p[0] == a && p[|p| - 1] == b
  }

  ghost predicate Reach(g: Graph, a: string, b: string) {
    exists p :: WalkFrom(g, a, p, b)
  }

  /** v lies on a directed cycle (a self-loop counts). */
  ghost predicate OnCycle(g: Graph, v: string) {
    exists p :: WalkFrom(g, v, p, v) && |p| >= 2
  }

  ghost predicate Cyclic(g: Graph) {
    exists v :: OnCycle(g, v)
  }

  ghost predicate Mutual(g: Graph, a: string, b: string) {
    Reach(g, a, b) && Reach(g, b, a)
  }

  /** Every vertex some edge points to. */
  function Targets(g: Graph): set<string> {
    set k, t | k in g && t in g[k] :: t
  }

  ghost function Vertices(g: Graph): set<string> {
    g.Keys + Targets(g)
  }

  ghost predicate Closed(g: Graph, s: set<string>) {
    forall v, w | v in s && Edge(g, v, w) :: w in s
  }

  /** A closed set none of whose members lies on a cycle. */
  ghost predicate CycleFree(g: Graph, s: set<string>) {
    Closed(g, s) && forall v | v in s :: !OnCycle(g, v)
  }

  lemma ReachSelf(g: Graph, a: string)
    ensures Reach(g, a, a)
  {
    assert WalkFrom(g, a, [a], a);
  }

  lemma ReachTrans(g: Graph, a: string, b: string, c: string)
    requires Reach(g, a, b) && Reach(g, b, c)
    ensures Reach(g, a, c)
  {
    var p :| WalkFrom(g, a, p, b);
    var q :| WalkFrom(g, b, q, c);
    JoinWalks(g, p, q);
    assert WalkFrom(g, a, p + q[1..], c);
  }

  lemma JoinWalks(g: Graph, p: seq<string>, q: seq<string>)
    requires Walk(g, p) && Walk(g, q) && p[|p| - 1] == q[0]
    ensures Walk(g, p + q[1..])
  {
    var r := p + q[1..];
    forall i | 0 <= i < |r| - 1 ensures Edge(g, r[i], r[i + 1]) {
      if i < |p| - 1 {
      } else {
        var k := i - |p| + 1;
        assert r[i] == q[k] && r[i + 1] == q[k + 1];
      }
    }
  }

  lemma ReachEdge(g: Graph, a: string, b: string)
    requires Edge(g, a, b)
    ensures Reach(g, a, b)
  {
    assert WalkFrom(g, a, [a, b], b);
  }

  /** A proper first step: distinct reachable vertices are joined by an edge and a walk. */
  lemma FirstStep(g: Graph, a: string, p: seq<string>, b: string)
    requires WalkFrom(g, a, p, b) && |p| >= 2
    ensures Edge(g, a, p[1]) && Reach(g, p[1], b)
  {
    assert WalkFrom(g, p[1], p[1..], b);
  }

  lemma CycleFromEdge(g: Graph, v: string, w: string)
    requires Edge(g, v, w) && Reach(g, w, v)
    ensures OnCycle(g, v)
  {
    var q :| WalkFrom(g, w, q, v);
    assert WalkFrom(g, v, [v] + q, v);
  }

  lemma {:induction false} ClosedWalk(g: Graph, s: set<string>, p: seq<string>)
    requires Closed(g, s) && Walk(g, p) && p[0] in s
    ensures p[|p| - 1] in s
  {
    if |p| > 1 {
      assert Edge(g, p[0], p[1]);
      ClosedWalk(g, s, p[1..]);
    }
  }

  lemma ClosedReach(g: Graph, s: set<string>, a: string, b: string)
    requires Closed(g, s) && a in s && Reach(g, a, b)
    ensures b in s
  {
    var p :| WalkFrom(g, a, p, b);
    ClosedWalk(g, s, p);
  }

  /** A vertex all of whose successors are already known cycle-free is cycle-free too. */
  lemma ExtendCycleFree(g: Graph, s: set<string>, x: string)
    requires CycleFree(g, s) && x !in s && forall w | Edge(g, x, w) :: w in s
    ensures CycleFree(g, s + {x})
  {
    if OnCycle(g, x) {
      var p :| WalkFrom(g, x, p, x) && |p| >= 2;
      FirstStep(g, x, p, x);
      ClosedReach(g, s, p[1], x);
    }
  }

  lemma OnCycleIsTarget(g: Graph, v: string)
    requires OnCycle(g, v)
    ensures v in Targets(g)
  {
    var p :| WalkFrom(g, v, p, v) && |p| >= 2;
    var i := |p| - 2;
    assert Edge(g, p[i], p[i + 1]);
    assert p[i] in g && v in g[p[i]];
  }

  lemma CycleFreeIsAcyclic(g: Graph, s: set<string>)
    requires CycleFree(g, s) && Targets(g) <= s
    ensures !Cyclic(g)
  {
    forall v | OnCycle(g, v) ensures v in Targets(g) {
      OnCycleIsTarget(g, v);
    }
  }

  lemma WalkSlice(g: Graph, p: seq<string>, i: int, j: int)
    requires Walk(g, p) && 0 <= i <= j < |p|
    ensures WalkFrom(g, p[i], p[i..j + 1], p[j])
  {
    var q := p[i..j + 1];
    forall k | 0 <= k < |q| - 1 ensures Edge(g, q[k], q[k + 1]) {
      assert Edge(g, p[i + k], p[i + k + 1]);
    }
  }

  ghost predicate HasSuccessorIn(g: Graph, s: set<string>, v: string) {
    exists w :: w in s && Edge(g, v, w)
  }

  lemma ExtendWalk(g: Graph, p: seq<string>, w: string)
    requires Walk(g, p) && Edge(g, p[|p| - 1], w)
    ensures Walk(g, p + [w])
  {
    var q := p + [w];
    forall i | 0 <= i < |q| - 1 ensures Edge(g, q[i], q[i + 1]) {
      assert i < |p| - 1 ==> Edge(g, p[i], p[i + 1]);
    }
  }

  lemma BackEdge(g: Graph, p: seq<string>, i: int, j: int)
    requires Walk(g, p) && 0 <= i <= j < |p| && Edge(g, p[j], p[i])
    ensures Cyclic(g)
  {
    WalkSlice(g, p, i, j);
    assert Reach(g, p[i], p[j]);
    CycleFromEdge(g, p[j], p[i]);
  }

  lemma GrowDistinct(p: seq<string>, q: seq<string>, w: string, s: set<string>)
    requires Distinct(p) && w !in p && Elems(p) <= s && w in s && (q == p + [w] || q == [w] + p)
    ensures Distinct(q) && Elems(q) == Elems(p) + {w} && s - Elems(q) < s - Elems(p)
  {
    assert w !in Elems(p) && w in Elems(q);
  }

  /** If every member of a finite non-empty set has a successor inside it, there is a cycle.
      The walk p grows until it meets itself. */
  lemma {:induction false} NoSinkCycle(g: Graph, s: set<string>, p: seq<string>)
    requires forall v {:trigger HasSuccessorIn(g, s, v)} :: v in s ==> HasSuccessorIn(g, s, v)
    requires Walk(g, p) && Distinct(p) && Elems(p) <= s
    ensures Cyclic(g)
    decreases s - Elems(p)
  {
    var last := p[|p| - 1];
    assert last in Elems(p);
    assert HasSuccessorIn(g, s, last);
    var w :| w in s && Edge(g, last, w);
    if w in p {
      var i :| 0 <= i < |p| && p[i] == w;
      BackEdge(g, p, i, |p| - 1);
    } else {
      ExtendWalk(g, p, w);
      GrowDistinct(p, p + [w], w, s);
      NoSinkCycle(g, s, p + [w]);
    }
  }

  lemma EveryoneContinues(g: Graph, s: set<string>, v: string)
    requires forall u {:trigger HasSuccessorIn(g, s, u)} :: u in s ==> HasSuccessorIn(g, s, u)
    requires v in s
    ensures Cyclic(g)
  {
    assert Elems([v]) == {v};
    NoSinkCycle(g, s, [v]);
  }

  /** Walking backwards in an acyclic graph ends at a vertex of s with no predecessor in s. */
  lemma {:induction false} SourceReaches(g: Graph, s: set<string>, p: seq<string>) returns (u: string)
    requires !Cyclic(g)
    requires Walk(g, p) && Distinct(p) && Elems(p) <= s
    ensures u in s && Reach(g, u, p[|p| - 1]) && forall w | w in s :: !Edge(g, w, u)
    decreases s - Elems(p)
  {
    u := p[0];
    assert u in Elems(p);
    if w :| w in s && Edge(g, w, u) {
      if w in p {
        var i :| 0 <= i < |p| && p[i] == w;
        BackEdge(g, p, 0, i);
        assert false;
      }
      assert Walk(g, [w] + p);
      GrowDistinct(p, [w] + p, w, s);
      u := SourceReaches(g, s, [w] + p);
    } else {
      assert WalkFrom(g, u, p, p[|p| - 1]);
    }
  }
}
