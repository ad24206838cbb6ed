/** The strongly connected components of the first-party import graph: Tarjan's algorithm
    over the shared index, lowlink and stack state of the nested `visit`. */
module Architecture {
  import opened Prelude
  import opened Ordering
  import opened Graphs
  import opened TarjanState

  /** The specification of the routine: exactly the maximal mutually reachable sets of two or
      more members, each once, in sorted order. */
  ghost predicate SccListing(g: Graph, cs: seq<seq<string>>) {
    && Ascending(StringsLess, cs)
    && (forall c | c in cs :: IsComponent(g, c))
    && forall a, b | a != b && Mutual(g, a, b) :: Covered(cs, a)
  }

  // ----- the algorithm -----

  class Tarjan {
    const graph: Graph
    var nextIndex: nat
    var indexes: Index
    var lowlinks: map<string, nat>
    var stack: seq<string>
    var onStack: set<string>
    var components: seq<seq<string>>

    ghost predicate Valid(open: set<string>)
      reads this
    {
      && Searching(graph, indexes, stack, open, nextIndex)
      && Collected(graph, indexes, stack, components)
      && onStack == Elems(stack)
      && indexes.Keys == lowlinks.Keys
      && indexes.Keys <= Vertices(graph)
    }

    constructor (graph: Graph)
      ensures this.graph == graph && Valid({}) && indexes == map[] && stack == []
    {
      this.graph := graph;
      nextIndex, indexes, lowlinks, stack, onStack, components := 0, map[], map[], [], {}, [];
    }

    /** Number the vertex and put it on the stack. */
    method Push(node: string, ghost open: set<string>)
      requires Valid(open) && node !in indexes && node in Vertices(graph)
      requires forall z | z in open :: Reach(graph, z, node)
      modifies this
      ensures Valid(open + {node})
      ensures nextIndex == old(nextIndex) + 1 && stack == old(stack) + [node]
      ensures indexes == old(indexes)[node := old(nextIndex)]
      ensures lowlinks == old(lowlinks)[node := old(nextIndex)]
      ensures Scanned(graph, indexes, stack, |old(stack)|, lowlinks[node], 0)
    {
      PushKeeps(graph, indexes, stack, open, nextIndex, node);
      PushCollected(graph, indexes, stack, components, node, nextIndex);
      ReachSelf(graph, node);
      indexes := indexes[node := nextIndex];
      lowlinks := lowlinks[node := nextIndex];
      nextIndex := nextIndex + 1;
      stack := stack + [node];
      onStack := onStack + {node};
    }

    /** `open` is the set of vertices whose visit is in progress. Either the class of `node` was
        popped and the stack is as before, or `node` stays and its lowlink is the index of an
        older stack vertex it reaches; it bounds every index an edge out of the new part reaches. */
    method Visit(node: string, ghost open: set<string>)
      requires Valid(open) && node !in indexes && node in Vertices(graph)
      requires forall z | z in open :: Reach(graph, z, node)
      modifies this
      ensures Valid(open)
      ensures Extends(old(indexes), indexes) && Extends(old(lowlinks), lowlinks)
      ensures node in indexes && old(nextIndex) <= indexes[node]
      ensures old(stack) <= stack
      ensures stack == old(stack) ==> lowlinks[node] == indexes[node]
      ensures stack != old(stack) ==>
                LowReached(graph, indexes, old(stack), node, lowlinks[node])
      ensures Crossing(graph, indexes, stack, |old(stack)|, lowlinks[node])
      decreases Vertices(graph) - indexes.Keys, 0
    {
      ghost var below := stack;
      Push(node, open);
      ScanAll(node, open + {node}, |below|);
      ExtendsExcept(old(indexes), old(indexes)[node := old(nextIndex)], indexes, node);
      ExtendsExcept(old(lowlinks), old(lowlinks)[node := old(nextIndex)], lowlinks, node);
      Close(node, open, below);
    }

    /** A visit from outside: nothing is open, and the stack ends empty again. */
    method Start(node: string)
      requires Valid({}) && stack == [] && node in graph
      modifies this
      ensures Valid({}) && stack == [] && node in indexes && old(indexes.Keys) <= indexes.Keys
    {
      if node !in indexes {
        Visit(node, {});
        EmptyStack(graph, indexes, stack);
      }
    }

    /** The loop over the successors. */
    method ScanAll(node: string, ghost open: set<string>, ghost base: nat)
      requires Valid(open) && base < |stack| && stack[base] == node && node in lowlinks
      requires Scanned(graph, indexes, stack, base, lowlinks[node], 0)
      requires forall z | z in open :: Reach(graph, z, node)
      modifies this
      ensures Valid(open) && old(stack) <= stack
      ensures Extends(old(indexes), indexes) && Extends(old(lowlinks), lowlinks[node := old(lowlinks[node])])
      ensures node in lowlinks
      ensures Scanned(graph, indexes, stack, base, lowlinks[node], |Succ(graph, node)|)
      decreases Vertices(graph) - indexes.Keys, 3
    {
      var targets := Succ(graph, node);
      for i := 0 to |targets|
        invariant Valid(open) && old(stack) <= stack
        invariant Extends(old(indexes), indexes) && Extends(old(lowlinks), lowlinks[node := old(lowlinks[node])])
        invariant node in lowlinks && Scanned(graph, indexes, stack, base, lowlinks[node], i)
      {
        Scan(node, i, open, base);
      }
    }

    /** Look at one successor, visiting it first when it has no index yet. */
    method Scan(node: string, i: nat, ghost open: set<string>, ghost base: nat)
      requires Valid(open) && base < |stack| && stack[base] == node && node in lowlinks
      requires i < |Succ(graph, node)| && Scanned(graph, indexes, stack, base, lowlinks[node], i)
      requires forall z | z in open :: Reach(graph, z, node)
      modifies this
      ensures Valid(open) && old(stack) <= stack
      ensures Extends(old(indexes), indexes) && Extends(old(lowlinks), lowlinks[node := old(lowlinks[node])])
      ensures node in lowlinks && Scanned(graph, indexes, stack, base, lowlinks[node], i + 1)
      decreases Vertices(graph) - indexes.Keys, 2
    {
      var target := Succ(graph, node)[i];
      if target !in indexes {
        Descend(node, i, open, base);
        lowlinks := lowlinks[node := Min(lowlinks[node], lowlinks[target])];
      } else {
        NumberedTarget(graph, indexes, stack, base, lowlinks[node], i);
        if target in onStack {
          lowlinks := lowlinks[node := Min(lowlinks[node], indexes[target])];
        }
      }
    }

    /** The recursive visit of a new successor, seen from the vertex being scanned. */
    method Descend(node: string, i: nat, ghost open: set<string>, ghost base: nat)
      requires Valid(open) && base < |stack| && stack[base] == node && node in lowlinks
      requires i < |Succ(graph, node)| && Scanned(graph, indexes, stack, base, lowlinks[node], i)
      requires Succ(graph, node)[i] !in indexes
      requires forall z | z in open :: Reach(graph, z, node)
      modifies this
      ensures Valid(open) && old(stack) <= stack
      ensures Extends(old(indexes), indexes) && Extends(old(lowlinks), lowlinks)
      ensures Succ(graph, node)[i] in lowlinks && node in lowlinks
      ensures Scanned(graph, indexes, stack, base, Min(lowlinks[node], lowlinks[Succ(graph, node)[i]]), i + 1)
      decreases Vertices(graph) - indexes.Keys, 1
    {
      var target := Succ(graph, node)[i];
      TargetIsVertex(graph, node, i);
      AllReach(graph, open, node, target);
      Visit(target, open);
      VisitedTarget(graph, old(indexes), old(stack), base, old(lowlinks[node]), i,
                    indexes, stack, lowlinks[target]);
    }

    /** Leave the vertex; when its lowlink is its own index, pop its component. */
    method Close(node: string, ghost open: set<string>, ghost below: seq<string>)
      requires Valid(open + {node}) && below + [node] <= stack
      requires node in lowlinks
      requires Scanned(graph, indexes, stack, |below|, lowlinks[node], |Succ(graph, node)|)
      requires forall v | v in open :: v in below
      modifies this
      ensures Valid(open)
      ensures indexes == old(indexes) && lowlinks == old(lowlinks)
      ensures below <= stack
      ensures stack == below ==> lowlinks[node] == indexes[node]
      ensures stack != below ==> LowReached(graph, indexes, below, node, lowlinks[node])
      ensures Crossing(graph, indexes, stack, |below|, lowlinks[node])
    {
      ghost var base := |below|;
      assert stack[base] == node && stack[..base] == below;
      AllScanned(graph, indexes, stack, base, lowlinks[node]);
      BelowByIndex(indexes, stack, nextIndex, base, base);
      assert open + {node} - {node} == open;
      if lowlinks[node] != indexes[node] {
        LowBelow(graph, indexes, stack, nextIndex, base, lowlinks[node]);
        RetireKeeps(graph, indexes, stack, open + {node}, nextIndex, node, lowlinks[node]);
        return;
      }
      RootReady(graph, indexes, stack, open + {node}, nextIndex, base);
      PopKeeps(graph, indexes, stack, open + {node}, nextIndex, base);
      var component := PopUntil(node, base);
      StringOrder();
      SortDistinct(StringLess, component);
      var members := SortBy(StringLess, component);
      CollectKeeps(graph, indexes, old(stack), open + {node}, nextIndex, base, components, members);
      if |component| > 1 {
        components := components + [members];
      }
    }

    /** The inner pop loop: everything above and including the root, in pop order. */
    method PopUntil(node: string, ghost base: nat) returns (component: seq<string>)
      requires base < |stack| && stack[base] == node && Distinct(stack) && onStack == Elems(stack)
      modifies this`stack, this`onStack
      ensures stack == old(stack[..base]) && onStack == Elems(stack)
      ensures Distinct(component) && Elems(component) == Elems(old(stack[base..]))
    {
      component := [];
      while true
        invariant base < |stack| <= |old(stack)| && stack == old(stack)[..|stack|]
        invariant onStack == Elems(stack)
        invariant Distinct(component) && Elems(component) == Elems(old(stack)[|stack|..])
        decreases |stack|
      {
        var member := stack[|stack| - 1];
        PopOne(old(stack), |stack|, component);
        onStack := onStack - {member};
        stack := stack[..|stack| - 1];
        component := component + [member];
        if member == node {
          break;
        }
      }
    }
  }

  lemma PopOne(all: seq<string>, n: nat, component: seq<string>)
    requires Distinct(all) && 0 < n <= |all|
    requires Distinct(component) && Elems(component) == Elems(all[n..])
    ensures Distinct(component + [all[n - 1]])
    ensures Elems(component + [all[n - 1]]) == Elems(all[n - 1..])
    ensures Elems(all[..n]) - {all[n - 1]} == Elems(all[..n - 1])
  {
    var m := all[n - 1];
    assert all[n - 1..] == [m] + all[n..];
    assert all[..n] == all[..n - 1] + [m];
    assert m !in all[n..];
    assert m !in all[..n - 1];
    assert forall x :: x in component <==> x in Elems(component);
    assert forall x :: x in all[n..] <==> x in Elems(all[n..]);
  }

  lemma PushCollected(g: Graph, idx: Index, stack: seq<string>, cs: seq<seq<string>>, x: string, n: nat)
    requires Collected(g, idx, stack, cs) && x !in idx
    ensures Collected(g, idx[x := n], stack + [x], cs)
  {
    forall i | 0 <= i < |cs| ensures Listed(g, idx[x := n], stack + [x], cs[i]) {
      assert Listed(g, idx, stack, cs[i]);
    }
  }

  lemma ExtendsExcept(a: Index, b: Index, c: Index, x: string)
    requires Extends(a, b) && x !in a && x in b && Extends(b, c[x := b[x]])
    ensures Extends(a, c)
  {
  }

  // ----- the result -----

  lemma NothingOpen(g: Graph, idx: Index, v: string)
    ensures !ReachesOpen(g, idx, {}, v)
  {
  }

  lemma AllReach(g: Graph, open: set<string>, a: string, b: string)
    requires (forall z | z in open :: Reach(g, z, a)) && Reach(g, a, b)
    ensures forall z | z in open :: Reach(g, z, b)
  {
    forall z | z in open ensures Reach(g, z, b) {
      ReachTrans(g, z, a, b);
    }
  }

  lemma EmptyStack(g: Graph, idx: Index, stack: seq<string>)
    requires Linked(g, idx, stack, {})
    ensures stack == []
  {
    if stack != [] {
      NothingOpen(g, idx, stack[0]);
    }
  }

  /** A vertex that reaches another one has an edge entry. */
  lemma ReachingIsKey(g: Graph, a: string, b: string)
    requires Reach(g, a, b) && a != b
    ensures a in g
  {
    var p :| WalkFrom(g, a, p, b);
    FirstStep(g, a, p, b);
  }

  lemma AllCollected(g: Graph, idx: Index, cs: seq<seq<string>>)
    requires Collected(g, idx, [], cs) && g.Keys <= idx.Keys
    ensures Distinct(cs)
    ensures forall c | c in cs :: IsComponent(g, c)
    ensures forall a, b | a != b && Mutual(g, a, b) :: Covered(cs, a)
  {
    forall i, j | 0 <= i < j < |cs| ensures cs[i] != cs[j] {
      assert Listed(g, idx, [], cs[i]) && Apart(cs[i], cs[j]);
      assert cs[i][0] in cs[i];
    }
    forall a, b | a != b && Mutual(g, a, b) ensures Covered(cs, a) {
      ReachingIsKey(g, a, b);
    }
  }

  lemma SameMembersListing(g: Graph, cs: seq<seq<string>>, r: seq<seq<string>>)
    requires Elems(cs) == Elems(r) && Ascending(StringsLess, r)
    requires forall c | c in cs :: IsComponent(g, c)
    requires forall a, b | a != b && Mutual(g, a, b) :: Covered(cs, a)
    ensures SccListing(g, r)
  {
    forall c | c in r ensures IsComponent(g, c) {
      assert c in Elems(cs);
    }
    forall a, b | a != b && Mutual(g, a, b) ensures Covered(r, a) {
      assert Covered(cs, a);
      var i :| 0 <= i < |cs| && a in cs[i];
      assert cs[i] in Elems(r);
      var j :| 0 <= j < |r| && r[j] == cs[i];
    }
  }

  lemma SortedListing(g: Graph, idx: Index, cs: seq<seq<string>>)
    requires Collected(g, idx, [], cs) && g.Keys <= idx.Keys
    ensures SccListing(g, SortBy(StringsLess, cs))
  {
    StringsOrder();
    AllCollected(g, idx, cs);
    SortDistinct(StringsLess, cs);
    hide Collected, SortBy;
    SameMembersListing(g, cs, SortBy(StringsLess, cs));
  }

  /** `_strongly_connected_components`. */
  method StronglyConnectedComponents(graph: Graph) returns (result: seq<seq<string>>)
    ensures SccListing(graph, result)
  {
    hide Collected, SccListing, Searching, SortBy, Extends;
    var search := new Tarjan(graph);
    var order := SortNames(graph.Keys);
    for i := 0 to |order|
      invariant search.graph == graph && search.Valid({}) && search.stack == []
      invariant forall k | 0 <= k < i :: order[k] in search.indexes
    {
      assert order[i] in Elems(order);
      search.Start(order[i]);
    }
    assert forall v | v in graph :: v in Elems(order);
    result := SortBy(StringsLess, search.components);
    SortedListing(graph, search.indexes, search.components);
  }

  // ----- what the listing means -----

  lemma ListingIncluded(g: Graph, r1: seq<seq<string>>, r2: seq<seq<string>>, c: seq<string>)
    requires SccListing(g, r1) && SccListing(g, r2) && c in r1
    ensures c in r2
  {
    assert IsComponent(g, c);
    assert c[0] in c && c[1] in c && StringLess(c[0], c[1]);
    StringOrder();
    assert Mutual(g, c[0], c[1]) && c[0] != c[1];
    assert Covered(r2, c[0]);
    var j :| 0 <= j < |r2| && c[0] in r2[j];
    assert IsComponent(g, r2[j]);
    forall b ensures b in Elems(c) <==> b in Elems(r2[j]) {
      assert b in c <==> Mutual(g, c[0], b);
      assert b in r2[j] <==> Mutual(g, c[0], b);
    }
    AscendingUnique(StringLess, c, r2[j]);
  }

  /** The graph alone determines the result: no visiting order can change it. */
  lemma ListingUnique(g: Graph, r1: seq<seq<string>>, r2: seq<seq<string>>)
    requires SccListing(g, r1) && SccListing(g, r2)
    ensures r1 == r2
  {
    StringsOrder();
    forall c ensures c in r1 <==> c in r2 {
      if c in r1 { ListingIncluded(g, r1, r2, c); }
      if c in r2 { ListingIncluded(g, r2, r1, c); }
    }
    AscendingUnique(StringsLess, r1, r2);
  }

  /** Every member has an edge entry, so looking up `by_name[component[0]]` cannot fail. */
  lemma MembersAreKeys(g: Graph, r: seq<seq<string>>, c: seq<string>, v: string)
    requires SccListing(g, r) && c in r && v in c
    ensures v in g && c[0] in g
  {
    assert IsComponent(g, c);
    StringOrder();
    assert StringLess(c[0], c[1]);
    assert c[0] in c && c[1] in c;
    ReachingIsKey(g, c[0], c[1]);
    if v != c[0] {
      assert Mutual(g, v, c[0]);
      ReachingIsKey(g, v, c[0]);
    }
  }

  /** Cyclicity is "some component is listed, or some vertex points at itself". */
  lemma CyclicByListing(g: Graph, r: seq<seq<string>>)
    requires SccListing(g, r)
    ensures Cyclic(g) <==> r != [] || exists v :: Edge(g, v, v)
  {
    if Cyclic(g) {
      var v :| OnCycle(g, v);
      var p :| WalkFrom(g, v, p, v) && |p| >= 2;
      FirstStep(g, v, p, v);
      if p[1] != v {
        ReachEdge(g, v, p[1]);
        assert Mutual(g, v, p[1]);
        assert Covered(r, v);
      }
    }
    if r != [] {
      var c := r[0];
      assert c in r && IsComponent(g, c);
      StringOrder();
      assert StringLess(c[0], c[1]) && c[0] in c && c[1] in c;
      assert Mutual(g, c[0], c[1]);
      var p :| WalkFrom(g, c[0], p, c[1]);
      FirstStep(g, c[0], p, c[1]);
      ReachTrans(g, p[1], c[1], c[0]);
      CycleFromEdge(g, c[0], p[1]);
    }
    if v :| Edge(g, v, v) {
      ReachSelf(g, v);
      CycleFromEdge(g, v, v);
    }
  }
}
