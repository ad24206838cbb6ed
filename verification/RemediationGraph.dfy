/** `assert_dag`: a depth-first search over two shared colour sets. */
module RemediationGraph {
  import opened Ordering
  import opened Graphs
  import opened PosixPath

  datatype DagVerdict =
    | Accepted
    | UnknownDependencies(unknown: set<string>)
    | CycleFound
    | MissingNode(node: string)  // the KeyError of edges[node]

  /** There is a walk of at least one edge. */
  ghost predicate StrictReach(g: Graph, a: string, b: string) {
    exists p :: WalkFrom(g, a, p, b) && |p| >= 2
  }

  lemma StrictReachEdge(g: Graph, a: string, b: string, c: string)
    requires (a == b || StrictReach(g, a, b)) && Edge(g, b, c)
    ensures StrictReach(g, a, c)
  {
    if a == b {
      assert WalkFrom(g, a, [a, c], c) && |[a, c]| >= 2;
    } else {
      var p :| WalkFrom(g, a, p, b) && |p| >= 2;
      ExtendWalk(g, p, c);
      assert WalkFrom(g, a, p + [c], c);
    }
  }

  lemma AllStrictReach(g: Graph, visiting: set<string>, b: string, c: string)
    requires (forall v | v in visiting :: StrictReach(g, v, b)) && Edge(g, b, c)
    ensures forall v | v in visiting + {b} :: StrictReach(g, v, c)
  {
    forall v | v in visiting + {b} ensures StrictReach(g, v, c) {
      StrictReachEdge(g, v, b, c);
    }
  }

  /** The closure state of the nested `visit`. */
  class DepthFirst {
    const nodes: set<string>
    const edges: Graph
    var visiting: set<string>
    var visited: set<string>

    ghost predicate Valid()
      reads this
    {
      && Targets(edges) <= nodes
      && visiting <= nodes && visited <= nodes && visited <= edges.Keys
      && visiting !! visited
      && CycleFree(edges, visited)
    }

    constructor (nodes: set<string>, edges: Graph)
      requires Targets(edges) <= nodes
      ensures Valid() && visiting == {} && visited == {}
      ensures this.nodes == nodes && this.edges == edges
    {
      this.nodes, this.edges := nodes, edges;
      visiting, visited := {}, {};
    }

    /** Afterwards the node is coloured visited and the visiting colours are as before, unless a
        cycle or a node without an edge entry stopped the search. */
    method Visit(node: string) returns (verdict: DagVerdict)
      requires Valid() && node in nodes
      requires forall v | v in visiting :: StrictReach(edges, v, node)
      modifies this
      ensures verdict.Accepted? ==>
                && Valid() && visiting == old(visiting)
                && old(visited) <= visited && node in visited
      ensures verdict.CycleFound? ==> Cyclic(edges)
      ensures verdict.MissingNode? ==> verdict.node in nodes && verdict.node !in edges
      ensures !verdict.UnknownDependencies?
      decreases nodes - visiting
    {
      if node in visiting {
        assert OnCycle(edges, node);
        return CycleFound;
      }
      if node in visited {
        return Accepted;
      }
      visiting := visiting + {node};
      if node !in edges {
        return MissingNode(node);
      }
      var dependencies := edges[node];
      for i := 0 to |dependencies|
        invariant Valid() && visiting == old(visiting) + {node}
        invariant old(visited) <= visited
        invariant forall j | 0 <= j < i :: dependencies[j] in visited
      {
        var dependency := dependencies[i];
        assert Edge(edges, node, dependency);
        AllStrictReach(edges, old(visiting), node, dependency);
        verdict := Visit(dependency);
        if !verdict.Accepted? {
          return;
        }
      }
      visiting := visiting - {node};
      ExtendCycleFree(edges, visited, node);
      visited := visited + {node};
      return Accepted;
    }
  }

  /** Acceptance is exact: every dependency is a node, every node has an edge entry, and no
      directed cycle exists. With entries for all nodes the refusals are exact too. */
  method AssertDag(nodes: set<string>, edges: Graph) returns (verdict: DagVerdict)
    ensures verdict.Accepted? <==>
            Targets(edges) <= nodes && nodes <= edges.Keys && !Cyclic(edges)
    ensures verdict.UnknownDependencies? <==> !(Targets(edges) <= nodes)
    ensures verdict.UnknownDependencies? ==> verdict.unknown == Targets(edges) - nodes
    ensures verdict.CycleFound? ==> Cyclic(edges)
    ensures verdict.MissingNode? ==> verdict.node in nodes && verdict.node !in edges
  {
    var unknown := Targets(edges) - nodes;
    if unknown != {} {
      return UnknownDependencies(unknown);
    }
    assert forall t | t in Targets(edges) :: t !in unknown;
    var search := new DepthFirst(nodes, edges);
    var order := SortNames(nodes);
    for i := 0 to |order|
      invariant search.Valid() && search.visiting == {}
      invariant search.nodes == nodes && search.edges == edges
      invariant forall j | 0 <= j < i :: order[j] in search.visited
    {
      assert order[i] in Elems(order);
      verdict := search.Visit(order[i]);
      if !verdict.Accepted? {
        return;
      }
    }
    forall v | v in nodes ensures v in search.visited && v in edges {
      assert v in Elems(order);
    }
    CycleFreeIsAcyclic(edges, search.visited);
    return Accepted;
  }

  // ----- path overlap -----

  /** `paths_overlap`: some pair of paths is equal or ancestor and descendant. */
  predicate PathsOverlap(left: seq<string>, right: seq<string>) {
    exists a, b | a in left && b in right :: Covers(Parse(a), Parse(b)) || Covers(Parse(b), Parse(a))
  }

  /** p is one of the paths of the set or lies below one. */
  ghost predicate Under(paths: seq<string>, p: Pure) {
    exists a :: a in paths && Covers(Parse(a), p)
  }

  /** Two write sets overlap exactly when some path lies under both. */
  lemma OverlapExact(left: seq<string>, right: seq<string>)
    ensures PathsOverlap(left, right) <==> exists p :: Under(left, p) && Under(right, p)
  {
    if PathsOverlap(left, right) {
      var a, b :| a in left && b in right && (Covers(Parse(a), Parse(b)) || Covers(Parse(b), Parse(a)));
      var p := if Covers(Parse(a), Parse(b)) then Parse(b) else Parse(a);
      assert Under(left, p) && Under(right, p);
    }
    if p :| Under(left, p) && Under(right, p) {
      var a :| a in left && Covers(Parse(a), p);
      var b :| b in right && Covers(Parse(b), p);
      CoversComparable(Parse(a), Parse(b), p);
    }
  }
}
