/** The supersession graph of the admit clauses: a Kahn-style count over a deque decides
    acyclicity, then the admits no other admit supersedes are active. */
module Supersession {
  import opened Ordering
  import opened Graphs

  datatype Bound =
    | Active(admits: seq<string>)
    | SupersedesOther           // an edge leads to a veto, a constraint or nothing
    | SupersessionCycle

  /** How many entries of xs are not in done. */
  function Pending(xs: seq<string>, done: set<string>): nat {
    if xs == [] then 0 else (if xs[0] in done then 0 else 1) + Pending(xs[1..], done)
  }

  /** How many entries of xs equal x. */
  function Count(xs: seq<string>, x: string): nat {
    if xs == [] then 0 else (if xs[0] == x then 1 else 0) + Count(xs[1..], x)
  }

  lemma {:induction false} PendingZero(xs: seq<string>, done: set<string>)
    ensures Pending(xs, done) == 0 <==> forall x | x in xs :: x in done
  {
    if xs != [] {
      PendingZero(xs[1..], done);
      assert xs == [xs[0]] + xs[1..];
    }
  }

  lemma {:induction false} PendingEmpty(xs: seq<string>)
    ensures Pending(xs, {}) == |xs|
  {
    if xs != [] {
      PendingEmpty(xs[1..]);
    }
  }

  lemma {:induction false} PendingMore(xs: seq<string>, done: set<string>, x: string)
    requires x !in done
    ensures Pending(xs, done) == Pending(xs, done + {x}) + Count(xs, x)
  {
    if xs != [] {
      PendingMore(xs[1..], done, x);
    }
  }

  lemma {:induction false} CountAppend(xs: seq<string>, y: string, x: string)
    ensures Count(xs + [y], x) == Count(xs, x) + if y == x then 1 else 0
  {
    if xs == [] {
      assert [y][1..] == [];
    } else {
      CountAppend(xs[1..], y, x);
      assert (xs + [y])[1..] == xs[1..] + [y];
    }
  }

  lemma {:induction false} CountMember(xs: seq<string>, x: string)
    ensures Count(xs, x) > 0 <==> x in xs
  {
    if xs != [] {
      CountMember(xs[1..], x);
      assert xs == [xs[0]] + xs[1..];
    }
  }

  /** What acceptance means: edges stay among the admits and there is no cycle. */
  ghost predicate WellFounded(admits: Graph) {
    Targets(admits) <= admits.Keys && !Cyclic(admits)
  }

  /** dependants[e] lists each digest once per edge it has to e, and nothing else. */
  ghost predicate Reversed(admits: Graph, dependants: Graph) {
    && dependants.Keys == admits.Keys
    && (forall e, d | e in admits && d in dependants[e] :: d in admits)
    && forall e, d | e in admits && d in admits :: Count(dependants[e], d) == Count(admits[d], e)
  }

  lemma {:induction false} CountPrefix(xs: seq<string>, j: nat, e: string)
    requires j < |xs|
    ensures Count(xs[..j + 1], e) == Count(xs[..j], e) + if xs[j] == e then 1 else 0
  {
    assert xs[..j + 1] == xs[..j] + [xs[j]];
    CountAppend(xs[..j], xs[j], e);
  }

  /** The dependants gathered from the first i digests and the first j edges of the next one. */
  ghost predicate PartlyReversed(admits: Graph, order: seq<string>, i: nat, j: nat, dependants: Graph)
    requires i <= |order| && (i < |order| && order[i] in admits ==> j <= |admits[order[i]]|)
  {
    && dependants.Keys == admits.Keys
    && (forall e, d | e in admits && d in dependants[e] :: d in admits)
    && forall e, d | e in admits && d in admits :: Count(dependants[e], d) ==
         if d in order[..i] then Count(admits[d], e)
         else if i < |order| && d == order[i] then Count(admits[d][..j], e)
         else 0
  }

  lemma ReverseEdge(admits: Graph, order: seq<string>, i: nat, j: nat, dependants: Graph)
    requires i < |order| && order[i] in admits && j < |admits[order[i]]| && Distinct(order)
    requires PartlyReversed(admits, order, i, j, dependants) && admits[order[i]][j] in admits
    ensures var e := admits[order[i]][j];
            PartlyReversed(admits, order, i, j + 1, dependants[e := dependants[e] + [order[i]]])
  {
    var digest, edge := order[i], admits[order[i]][j];
    var after := dependants[edge := dependants[edge] + [digest]];
    assert digest !in order[..i];
    forall e, d | e in admits && d in admits
      ensures Count(after[e], d) ==
              if d in order[..i] then Count(admits[d], e)
              else if d == digest then Count(admits[d][..j + 1], e)
              else 0
    {
      CountAppend(dependants[edge], digest, d);
      CountPrefix(admits[digest], j, e);
    }
  }

  lemma ReverseNext(admits: Graph, order: seq<string>, i: nat, dependants: Graph)
    requires i < |order| && order[i] in admits
    requires PartlyReversed(admits, order, i, |admits[order[i]]|, dependants)
    ensures PartlyReversed(admits, order, i + 1, 0, dependants)
  {
    var digest := order[i];
    assert admits[digest][..|admits[digest]|] == admits[digest];
    assert order[..i + 1] == order[..i] + [digest];
    forall d | d in admits ensures Count(admits[d][..0], d) == 0 {
    }
  }

  lemma AllReversed(admits: Graph, order: seq<string>, dependants: Graph)
    requires Elems(order) == admits.Keys && PartlyReversed(admits, order, |order|, 0, dependants)
    ensures Reversed(admits, dependants)
  {
    assert order[..|order|] == order;
    assert forall d | d in admits :: d in Elems(order);
  }

  lemma InOrder(order: seq<string>, i: nat)
    requires i < |order|
    ensures order[i] in Elems(order)
  {
  }

  lemma NothingReversed(admits: Graph, order: seq<string>, dependants: Graph)
    requires dependants == map d | d in admits :: []
    ensures PartlyReversed(admits, order, 0, 0, dependants)
  {
  }

  lemma EdgesInside(admits: Graph, order: seq<string>)
    requires Elems(order) == admits.Keys
    requires InsideUpTo(admits, order, |order|)
    ensures Targets(admits) <= admits.Keys
  {
    forall d, e | d in admits && e in admits[d] ensures e in admits {
      assert d in Elems(order);
    }
  }

  predicate Inside(admits: Graph, d: string) {
    forall e | e in Succ(admits, d) :: e in admits
  }

  ghost predicate InsideUpTo(admits: Graph, order: seq<string>, i: nat)
    requires i <= |order|
  {
    forall k {:trigger order[k]} | 0 <= k < i :: Inside(admits, order[k])
  }

  lemma InsideNext(admits: Graph, order: seq<string>, i: nat)
    requires i < |order| && InsideUpTo(admits, order, i) && Inside(admits, order[i])
    ensures InsideUpTo(admits, order, i + 1)
  {
  }

  lemma Outside(admits: Graph, d: string)
    requires !Inside(admits, d)
    ensures !(Targets(admits) <= admits.Keys)
  {
    var e :| e in Succ(admits, d) && e !in admits;
    assert e in Targets(admits);
  }

  /** Every digest that supersedes e is listed under e, once per edge. */
  method Dependants(admits: Graph, order: seq<string>) returns (ok: bool, dependants: Graph)
    requires Distinct(order) && Elems(order) == admits.Keys
    ensures ok <==> Targets(admits) <= admits.Keys
    ensures ok ==> Reversed(admits, dependants)
  {
    dependants := map d | d in admits :: [];
    NothingReversed(admits, order, dependants);
    for i := 0 to |order|
      invariant PartlyReversed(admits, order, i, 0, dependants)
      invariant InsideUpTo(admits, order, i)
    {
      InOrder(order, i);
      if !Inside(admits, order[i]) {
        Outside(admits, order[i]);
        return false, dependants;
      }
      dependants := RecordEdges(admits, order, i, dependants);
      InsideNext(admits, order, i);
    }
    EdgesInside(admits, order);
    AllReversed(admits, order, dependants);
    return true, dependants;
  }

  /** `for edge in edges: dependants[edge].append(digest)`. */
  method RecordEdges(admits: Graph, order: seq<string>, i: nat, before: Graph) returns (dependants: Graph)
    requires Distinct(order) && i < |order| && order[i] in admits && Inside(admits, order[i])
    requires PartlyReversed(admits, order, i, 0, before)
    ensures PartlyReversed(admits, order, i + 1, 0, dependants)
  {
    dependants := before;
    var digest := order[i];
    var edges := admits[digest];
    for j := 0 to |edges|
      invariant PartlyReversed(admits, order, i, j, dependants)
    {
      assert edges[j] in Succ(admits, digest);
      ReverseEdge(admits, order, i, j, dependants);
      dependants := dependants[edges[j] := dependants[edges[j]] + [digest]];
    }
    ReverseNext(admits, order, i, dependants);
  }

  /** The state of the count: done vertices were dequeued, those in the frontier have no
      pending edge left, and remaining holds the number of edges to vertices not done. */
  ghost predicate Counting(admits: Graph, remaining: map<string, nat>, frontier: seq<string>, done: set<string>,
                           left: seq<string>)
  {
    && remaining.Keys == admits.Keys
    && Distinct(frontier) && done <= admits.Keys
    && (forall d | d in frontier :: d in admits && d !in done)
    && (forall d | d in admits :: remaining[d] == Pending(admits[d], done) + Count(left, d))
    && (forall d | d in admits :: remaining[d] == 0 <==> d in frontier || d in done)
  }

  /** Dequeuing v turns its dependants' entries into decrements still to be made. */
  lemma Dequeue(admits: Graph, remaining: map<string, nat>, frontier: seq<string>, done: set<string>,
                left: seq<string>)
    requires Counting(admits, remaining, frontier, done, []) && frontier != []
    requires forall d | d in admits :: Count(left, d) == Count(admits[d], frontier[0])
    ensures Counting(admits, remaining, frontier[1..], done + {frontier[0]}, left)
  {
    var v := frontier[0];
    assert v in frontier;
    assert frontier == [v] + frontier[1..];
    forall d | d in admits
      ensures Pending(admits[d], done) == Pending(admits[d], done + {v}) + Count(left, d)
    {
      PendingMore(admits[d], done, v);
    }
  }

  lemma Decrement(admits: Graph, remaining: map<string, nat>, frontier: seq<string>, done: set<string>,
                  left: seq<string>)
    requires Counting(admits, remaining, frontier, done, left) && left != [] && left[0] in admits
    ensures remaining[left[0]] > 0
    ensures var n := remaining[left[0]] - 1;
            var next := if n == 0 then frontier + [left[0]] else frontier;
            Counting(admits, remaining[left[0] := n], next, done, left[1..])
  {
    var d := left[0];
    assert left == [d] + left[1..];
    assert remaining[d] > 0;
  }

  lemma FrontierFree(admits: Graph, remaining: map<string, nat>, frontier: seq<string>, done: set<string>)
    requires Counting(admits, remaining, frontier, done, []) && frontier != []
    requires CycleFree(admits, done)
    ensures CycleFree(admits, done + {frontier[0]})
  {
    var v := frontier[0];
    assert v in frontier;
    PendingZero(admits[v], done);
    ExtendCycleFree(admits, done, v);
  }

  lemma StillWaiting(admits: Graph, done: set<string>, u: string)
    requires Targets(admits) <= admits.Keys && u in admits && Pending(admits[u], done) != 0
    ensures HasSuccessorIn(admits, admits.Keys - done, u)
  {
    PendingZero(admits[u], done);
    var w :| w in admits[u] && w !in done;
    assert w in Targets(admits) && Edge(admits, u, w);
  }

  /** An empty frontier with vertices left over: each of them still waits for another. */
  lemma StuckCycle(admits: Graph, remaining: map<string, nat>, done: set<string>, v: string)
    requires Counting(admits, remaining, [], done, []) && Targets(admits) <= admits.Keys
    requires v in admits.Keys - done
    ensures Cyclic(admits)
  {
    var s := admits.Keys - done;
    forall u | u in s ensures HasSuccessorIn(admits, s, u) {
      assert remaining[u] != 0;
      StillWaiting(admits, done, u);
    }
    EveryoneContinues(admits, s, v);
  }

  /** The count reaches every admit exactly when there is no cycle. */
  lemma CountDecides(admits: Graph, remaining: map<string, nat>, done: set<string>)
    requires Counting(admits, remaining, [], done, []) && CycleFree(admits, done)
    requires Targets(admits) <= admits.Keys
    ensures |done| == |admits| <==> !Cyclic(admits)
  {
    assert |admits| == |admits.Keys|;
    if done == admits.Keys {
      CycleFreeIsAcyclic(admits, done);
    } else {
      var v := ProperSubsetSmaller(done, admits.Keys);
      StuckCycle(admits, remaining, done, v);
    }
  }

  lemma ProperSubsetSmaller(a: set<string>, b: set<string>) returns (x: string)
    requires a <= b && a != b
    ensures |a| < |b| && x in b - a
  {
    x :| x in b && x !in a;
    assert b == a + (b - a) && a !! (b - a) && x in b - a;
  }

  lemma NothingCounted(admits: Graph, remaining: map<string, nat>, frontier: seq<string>)
    requires remaining == map d | d in admits :: |admits[d]|
    requires Distinct(frontier) && forall d :: d in frontier <==> d in admits && remaining[d] == 0
    ensures Counting(admits, remaining, frontier, {}, []) && CycleFree(admits, {})
  {
    forall d | d in admits ensures Pending(admits[d], {}) == |admits[d]| {
      PendingEmpty(admits[d]);
    }
  }

  lemma FrontierMember(admits: Graph, remaining: map<string, nat>, frontier: seq<string>, done: set<string>)
    requires Counting(admits, remaining, frontier, done, []) && frontier != []
    ensures frontier[0] in admits && frontier[0] !in done && done <= admits.Keys
  {
    assert frontier[0] in frontier;
  }

  /** One turn of the loop: dequeue, then decrement every dependant. */
  method DrainOne(admits: Graph, dependants: Graph, counts: map<string, nat>, queue: seq<string>,
      ghost done: set<string>)
    returns (remaining: map<string, nat>, frontier: seq<string>)
    requires Targets(admits) <= admits.Keys && Reversed(admits, dependants)
    requires Counting(admits, counts, queue, done, []) && CycleFree(admits, done) && queue != []
    ensures Counting(admits, remaining, frontier, done + {queue[0]}, []) && CycleFree(admits, done + {queue[0]})
  {
    hide Counting, CycleFree;
    FrontierMember(admits, counts, queue, done);
    FrontierFree(admits, counts, queue, done);
    Dequeue(admits, counts, queue, done, dependants[queue[0]]);
    remaining, frontier := Release(admits, counts, queue[1..], done + {queue[0]}, dependants[queue[0]]);
  }

  method Drain(admits: Graph, dependants: Graph, order: seq<string>) returns (visited: nat)
    requires Targets(admits) <= admits.Keys && Reversed(admits, dependants)
    requires Distinct(order) && Elems(order) == admits.Keys
    ensures visited == |admits| <==> !Cyclic(admits)
  {
    hide Counting, CycleFree, Reversed, Distinct, Elems;
    var remaining: map<string, nat> := map d | d in admits :: |admits[d]|;
    var frontier := Ready(admits, remaining, order);
    visited := 0;
    ghost var done: set<string> := {};
    NothingCounted(admits, remaining, frontier);
    while frontier != []
      invariant Counting(admits, remaining, frontier, done, [])
      invariant CycleFree(admits, done) && visited == |done|
      decreases admits.Keys - done
    {
      visited := visited + 1;
      FrontierMember(admits, remaining, frontier, done);
      ghost var next := frontier[0];
      remaining, frontier := DrainOne(admits, dependants, remaining, frontier, done);
      done := done + {next};
    }
    CountDecides(admits, remaining, done);
  }

  /** `digest for digest, count in remaining.items() if count == 0`. */
  method Ready(admits: Graph, remaining: map<string, nat>, order: seq<string>) returns (frontier: seq<string>)
    requires Distinct(order) && Elems(order) == admits.Keys == remaining.Keys
    ensures Distinct(frontier)
    ensures forall d :: d in frontier <==> d in admits && remaining[d] == 0
  {
    frontier := [];
    for i := 0 to |order|
      invariant Distinct(frontier)
      invariant forall d :: d in frontier <==> d in order[..i] && d in remaining && remaining[d] == 0
    {
      assert order[i] in Elems(order) && order[i] !in order[..i];
      assert order[..i + 1] == order[..i] + [order[i]];
      if remaining[order[i]] == 0 {
        frontier := frontier + [order[i]];
      }
    }
    assert order[..|order|] == order;
    assert forall d :: d in order <==> d in Elems(order);
  }

  /** The inner loop: one decrement per entry, enqueueing what reaches zero. */
  method Release(admits: Graph, counts: map<string, nat>, queue: seq<string>, ghost done: set<string>,
                 dependants: seq<string>)
    returns (remaining: map<string, nat>, frontier: seq<string>)
    requires Counting(admits, counts, queue, done, dependants)
    requires forall d | d in dependants :: d in admits
    ensures Counting(admits, remaining, frontier, done, [])
  {
    remaining, frontier := counts, queue;
    for i := 0 to |dependants|
      invariant Counting(admits, remaining, frontier, done, dependants[i..])
    {
      var digest := dependants[i];
      assert dependants[i..][0] == digest && dependants[i..][1..] == dependants[i + 1..];
      Decrement(admits, remaining, frontier, done, dependants[i..]);
      remaining := remaining[digest := remaining[digest] - 1];
      if remaining[digest] == 0 {
        frontier := frontier + [digest];
      }
    }
  }

  /** The supersession part of `bind_clause_semantics_v2`. */
  method BindSupersession(admits: Graph) returns (bound: Bound)
    ensures bound.Active? <==> WellFounded(admits)
    ensures bound.SupersedesOther? <==> !(Targets(admits) <= admits.Keys)
    ensures bound.Active? ==>
              && Ascending(StringLess, bound.admits)
              && Elems(bound.admits) == admits.Keys - Targets(admits)
  {
    var order := SortNames(admits.Keys);
    StringOrder();
    AscendingOrdered(StringLess, order);
    var ok, dependants := Dependants(admits, order);
    if !ok {
      return SupersedesOther;
    }
    var visited := Drain(admits, dependants, order);
    if visited != |admits| {
      return SupersessionCycle;
    }
    var superseded := Targets(admits);
    var active := SortNames(admits.Keys - superseded);
    return Active(active);
  }

  /** Every admit, superseded or not, is reached from an active one; so a non-empty set of
      admits never binds to an empty active set. */
  lemma ActiveReachesAll(admits: Graph, active: set<string>, v: string) returns (u: string)
    requires WellFounded(admits) && active == admits.Keys - Targets(admits) && v in admits
    ensures u in active && Reach(admits, u, v)
  {
    u := SourceReaches(admits, admits.Keys, [v]);
    assert forall k | k in admits :: u in admits[k] ==> Edge(admits, k, u);
  }
}
