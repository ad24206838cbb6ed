/** The three cycle tests of the repository decide the same property by different means: a
    two-colour depth-first search, a count of dequeued vertices and Tarjan's components. */
module Acyclicity {
  import opened Graphs
  import opened RemediationGraph
  import opened Supersession
  import opened Architecture

  predicate SelfLoop(g: Graph) {
    exists v | v in g :: v in g[v]
  }

  lemma SelfLoopExact(g: Graph)
    ensures SelfLoop(g) <==> exists v :: Edge(g, v, v)
  {
    if v :| Edge(g, v, v) {
      assert v in g && v in g[v];
    }
    if SelfLoop(g) {
      var v :| v in g && v in g[v];
      assert Edge(g, v, v);
    }
  }

  /** On a graph whose targets are all keys the three verdicts coincide; with a target that is
      not a key the first two refuse, while the third still answers for the whole graph. */
  method Verdicts(graph: Graph) returns (dag: DagVerdict, bound: Bound, components: seq<seq<string>>)
    ensures SccListing(graph, components)
    ensures components == [] && !SelfLoop(graph) <==> !Cyclic(graph)
    ensures dag.Accepted? <==> bound.Active?
    ensures Targets(graph) <= graph.Keys ==> (dag.Accepted? <==> components == [] && !SelfLoop(graph))
    ensures !(Targets(graph) <= graph.Keys) ==> dag.UnknownDependencies? && bound.SupersedesOther?
  {
    dag := AssertDag(graph.Keys, graph);
    bound := BindSupersession(graph);
    components := StronglyConnectedComponents(graph);
    CyclicByListing(graph, components);
    SelfLoopExact(graph);
  }
}
