/** The in-place `parents` list of `collapse_model_witnesses`: find with path halving and
    union toward the smaller root. */
module UnionFind {

  /** No parent is above its child, so following parents ends. */
  ghost predicate Descending(p: seq<nat>) {
    forall i | 0 <= i < |p| :: p[i] <= i
  }

  ghost function Root(p: seq<nat>, i: nat): (r: nat)
    requires Descending(p) && i < |p|
    ensures r <= i && p[r] == r
    decreases i
  {
    if p[i] == i then i else Root(p, p[i])
  }

  /** Halving the path at i moves no vertex to another root. */
  lemma {:induction false} HalvingKeepsRoot(p: seq<nat>, i: nat, k: nat)
    requires Descending(p) && i < |p| && k < |p|
    ensures Descending(p[i := p[p[i]]]) && Root(p[i := p[p[i]]], k) == Root(p, k)
    decreases k
  {
    var q := p[i := p[p[i]]];
    if q[k] != k {
      HalvingKeepsRoot(p, i, q[k]);
    }
  }

  /** Linking the larger root below the smaller one redirects exactly its own members. */
  lemma {:induction false} LinkingRoots(p: seq<nat>, high: nat, low: nat, k: nat)
    requires Descending(p) && low < high < |p| && p[low] == low && p[high] == high && k < |p|
    ensures Descending(p[high := low])
    ensures Root(p[high := low], k) == if Root(p, k) == high then low else Root(p, k)
    decreases k
  {
    if p[k] != k {
      LinkingRoots(p, high, low, p[k]);
    }
  }

  ghost predicate SameRoots(p: seq<nat>, q: seq<nat>)
    requires Descending(p) && Descending(q)
  {
    |p| == |q| && forall k | 0 <= k < |p| :: Root(q, k) == Root(p, k)
  }

  /** Path halving: every other vertex on the path is pointed at its grandparent. */
  ghost function Halved(p: seq<nat>, i: nat): seq<nat>
    requires Descending(p) && i < |p|
    decreases i
  {
    if p[i] == i then p else Halved(p[i := p[p[i]]], p[p[i]])
  }

  method Find(parents: array<nat>, start: nat) returns (index: nat)
    requires Descending(parents[..]) && start < parents.Length
    modifies parents
    ensures Descending(parents[..]) && SameRoots(old(parents[..]), parents[..])
    ensures index == Root(parents[..], start) && parents[..] == Halved(old(parents[..]), start)
  {
    index := start;
    while parents[index] != index
      invariant index < parents.Length && Descending(parents[..])
      invariant SameRoots(old(parents[..]), parents[..])
      invariant Root(parents[..], index) == Root(parents[..], start)
      invariant Halved(parents[..], index) == Halved(old(parents[..]), start)
      decreases index
    {
      ghost var p := parents[..];
      forall k: nat | k < |p|
        ensures Descending(p[index := p[p[index]]]) && Root(p[index := p[p[index]]], k) == Root(p, k)
      {
        HalvingKeepsRoot(p, index, k);
      }
      parents[index] := parents[parents[index]];
      assert parents[..] == p[index := p[p[index]]];
      index := parents[index];
    }
  }

  /** The root after merging the roots a and b. */
  function Merged(r: nat, a: nat, b: nat): nat {
    if r == a || r == b then (if a <= b then a else b) else r
  }

  method Union(parents: array<nat>, left: nat, right: nat)
    requires Descending(parents[..]) && left < parents.Length && right < parents.Length
    modifies parents
    ensures Descending(parents[..])
    ensures forall k | 0 <= k < parents.Length ::
              Root(parents[..], k) ==
              Merged(Root(old(parents[..]), k), Root(old(parents[..]), left), Root(old(parents[..]), right))
  {
    var leftRoot := Find(parents, left);
    var rightRoot := Find(parents, right);
    if leftRoot != rightRoot {
      var high: nat := if leftRoot < rightRoot then rightRoot else leftRoot;
      var low: nat := if leftRoot < rightRoot then leftRoot else rightRoot;
      ghost var p := parents[..];
      forall k: nat | k < |p|
        ensures Descending(p[high := low])
        ensures Root(p[high := low], k) == if Root(p, k) == high then low else Root(p, k)
      {
        LinkingRoots(p, high, low, k);
      }
      parents[high] := low;
      assert parents[..] == p[high := low];
    }
  }
}
