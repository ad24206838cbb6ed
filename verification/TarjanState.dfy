/** What the shared index, lowlink and stack state of Tarjan's algorithm keeps: the relations
    between the numbered vertices, the stack and the components collected so far. */
module TarjanState {
  import opened Prelude
  import opened Ordering
  import opened Graphs

  type Index = map<string, nat>

  /** c lists one mutual-reachability class of at least two members, in sorted order. */
  ghost predicate IsComponent(g: Graph, c: seq<string>) {
    && |c| >= 2
    && Ascending(StringLess, c)
    && forall a, b | a in c :: b in c <==> Mutual(g, a, b)
  }

  ghost predicate Covered(cs: seq<seq<string>>, v: string) {
    exists i :: 0 <= i < |cs| && v in cs[i]
  }

  // ----- what one call state keeps -----

  ghost predicate Numbered(idx: Index, stack: seq<string>, next: nat) {
    && (forall v | v in idx :: idx[v] < next)
    && (forall i | 0 <= i < |stack| :: stack[i] in idx)
    && (forall i, j | 0 <= i < j < |stack| :: idx[stack[i]] < idx[stack[j]])
  }

  /** Popped vertices form a closed set; only vertices still being visited may have an
      unnumbered successor. */
  ghost predicate Explored(g: Graph, idx: Index, stack: seq<string>, open: set<string>) {
    && (forall v | v in open :: v in stack)
    && (forall v, w | v in idx && v !in open && Edge(g, v, w) :: w in idx)
    && (forall v, w | v in idx && v !in stack && Edge(g, v, w) :: w !in stack)
  }

  ghost predicate ReachesOpen(g: Graph, idx: Index, open: set<string>, v: string) {
    exists z :: z in open && z in idx && v in idx && idx[z] <= idx[v] && Reach(g, v, z)
  }

  ghost predicate Linked(g: Graph, idx: Index, stack: seq<string>, open: set<string>) {
    && (forall i, j | 0 <= i <= j < |stack| :: Reach(g, stack[i], stack[j]))
    && (forall v {:trigger ReachesOpen(g, idx, open, v)} | v in stack :: ReachesOpen(g, idx, open, v))
  }

  ghost predicate Searching(g: Graph, idx: Index, stack: seq<string>, open: set<string>, next: nat) {
    Numbered(idx, stack, next) && Explored(g, idx, stack, open) && Linked(g, idx, stack, open)
  }

  ghost predicate Listed(g: Graph, idx: Index, stack: seq<string>, c: seq<string>) {
    IsComponent(g, c) && forall v | v in c :: v in idx && v !in stack
  }

  ghost predicate Apart(c: seq<string>, d: seq<string>) {
    forall v | v in c :: v !in d
  }

  ghost predicate Collected(g: Graph, idx: Index, stack: seq<string>, cs: seq<seq<string>>) {
    && (forall i | 0 <= i < |cs| :: Listed(g, idx, stack, cs[i]))
    && (forall i, j | 0 <= i < j < |cs| :: Apart(cs[i], cs[j]))
    && (forall v, w | v in idx && v !in stack && v != w && Mutual(g, v, w) :: Covered(cs, v))
  }

  ghost predicate Extends(old_: Index, new_: Index) {
    forall v | v in old_ :: v in new_ && new_[v] == old_[v]
  }

  /** No edge from the stack above `base` down into it reaches an index below `low`. */
  ghost predicate Crossing(g: Graph, idx: Index, stack: seq<string>, base: nat, low: nat) {
    forall i, j | 0 <= j < base <= i < |stack| && Edge(g, stack[i], stack[j]) && stack[j] in idx ::
      low <= idx[stack[j]]
  }

  ghost predicate LowReached(g: Graph, idx: Index, stack: seq<string>, x: string, low: nat) {
    exists y :: y in stack && y in idx && idx[y] == low && Reach(g, x, y)
  }

  // ----- the three state changes -----

  lemma ReachFromStack(g: Graph, idx: Index, stack: seq<string>, open: set<string>, v: string, x: string)
    requires Linked(g, idx, stack, open) && v in stack
    requires forall z | z in open :: Reach(g, z, x)
    ensures Reach(g, v, x)
  {
    assert ReachesOpen(g, idx, open, v);
    var z :| z in open && z in idx && v in idx && idx[z] <= idx[v] && Reach(g, v, z);
    ReachTrans(g, v, z, x);
  }

  lemma PushKeeps(g: Graph, idx: Index, stack: seq<string>, open: set<string>, next: nat, x: string)
    requires Searching(g, idx, stack, open, next) && x !in idx
    requires forall z | z in open :: Reach(g, z, x)
    ensures Searching(g, idx[x := next], stack + [x], open + {x}, next + 1)
  {
    var idx', stack', open' := idx[x := next], stack + [x], open + {x};
    ReachSelf(g, x);
    forall i, j | 0 <= i <= j < |stack'| ensures Reach(g, stack'[i], stack'[j]) {
      if i < j == |stack| {
        ReachFromStack(g, idx, stack, open, stack[i], x);
      }
    }
    forall v | v in stack' ensures ReachesOpen(g, idx', open', v) {
      if v == x {
        assert x in open' && Reach(g, x, x);
      } else {
        assert ReachesOpen(g, idx, open, v);
        var z :| z in open && z in idx && v in idx && idx[z] <= idx[v] && Reach(g, v, z);
        assert z in open' && idx'[z] <= idx'[v];
      }
    }
  }

  lemma OpenReached(g: Graph, idx: Index, open: set<string>, v: string) returns (z: string)
    requires ReachesOpen(g, idx, open, v)
    ensures z in open && z in idx && v in idx && idx[z] <= idx[v] && Reach(g, v, z)
  {
    z :| z in open && z in idx && v in idx && idx[z] <= idx[v] && Reach(g, v, z);
  }

  lemma StillReachesOpen(g: Graph, idx: Index, open: set<string>, x: string, y: string, z: string, v: string)
    requires ReachesOpen(g, idx, open, v)
    requires x in idx && y in idx && z in open && z in idx && idx[z] <= idx[y] < idx[x]
    requires Reach(g, x, y) && Reach(g, y, z)
    ensures ReachesOpen(g, idx, open - {x}, v)
  {
    var u := OpenReached(g, idx, open, v);
    if u == x {
      ReachTrans(g, v, x, y);
      ReachTrans(g, v, y, z);
      assert z in open - {x};
    } else {
      assert u in open - {x};
    }
  }

  lemma RetireExplored(g: Graph, idx: Index, stack: seq<string>, open: set<string>, x: string)
    requires Explored(g, idx, stack, open)
    requires forall w | Edge(g, x, w) :: w in idx
    ensures Explored(g, idx, stack, open - {x})
  {
    forall v, w | v in idx && v !in open - {x} && Edge(g, v, w) ensures w in idx {
    }
  }

  lemma RetireLinked(g: Graph, idx: Index, stack: seq<string>, open: set<string>, x: string, low: nat)
    requires Linked(g, idx, stack, open) && x in idx
    requires low < idx[x] && LowReached(g, idx, stack, x, low)
    ensures Linked(g, idx, stack, open - {x})
  {
    var y :| y in stack && y in idx && idx[y] == low && Reach(g, x, y);
    assert ReachesOpen(g, idx, open, y);
    var z := OpenReached(g, idx, open, y);
    forall v | v in stack ensures ReachesOpen(g, idx, open - {x}, v) {
      assert ReachesOpen(g, idx, open, v);
      StillReachesOpen(g, idx, open, x, y, z, v);
    }
  }

  /** Leaving a vertex that reaches an older one on the stack. */
  lemma RetireKeeps(g: Graph, idx: Index, stack: seq<string>, open: set<string>, next: nat, x: string, low: nat)
    requires Searching(g, idx, stack, open, next) && x in open && x in idx
    requires forall w | Edge(g, x, w) :: w in idx
    requires low < idx[x] && LowReached(g, idx, stack, x, low)
    ensures Searching(g, idx, stack, open - {x}, next)
  {
    RetireLinked(g, idx, stack, open, x, low);
    RetireExplored(g, idx, stack, open, x);
  }

  ghost predicate Rooted(g: Graph, idx: Index, stack: seq<string>, open: set<string>, next: nat, base: nat) {
    && Searching(g, idx, stack, open, next)
    && base < |stack|
    && (forall i | base <= i < |stack| :: stack[i] in open <==> i == base)
    && (forall w | Edge(g, stack[base], w) :: w in idx)
    && (forall i, j | 0 <= j < base <= i < |stack| :: !Edge(g, stack[i], stack[j]))
  }

  ghost function Settled(idx: Index, stack: seq<string>): set<string> {
    set v | v in idx && v !in stack
  }

  lemma BelowByIndex(idx: Index, stack: seq<string>, next: nat, base: nat, i: nat)
    requires Numbered(idx, stack, next) && base <= |stack| && i < |stack|
    ensures stack[i] in stack[..base] <==> i < base
    ensures stack[i] in stack[base..] <==> base <= i
  {
    if i < base {
      assert stack[..base][i] == stack[i];
    } else {
      assert stack[base..][i - base] == stack[i];
    }
  }

  lemma PoppedClosed(g: Graph, idx: Index, stack: seq<string>, open: set<string>, next: nat, base: nat)
    requires Rooted(g, idx, stack, open, next, base)
    ensures Closed(g, Settled(idx, stack[..base]))
  {
    var s := Settled(idx, stack[..base]);
    forall v, w | v in s && Edge(g, v, w) ensures w in s {
      if v in stack {
        var i :| 0 <= i < |stack| && stack[i] == v;
        BelowByIndex(idx, stack, next, base, i);
        forall j | 0 <= j < base ensures stack[j] != w {
          assert !Edge(g, stack[i], stack[j]);
        }
      }
    }
  }

  lemma RootReachesBack(g: Graph, idx: Index, stack: seq<string>, open: set<string>, next: nat, base: nat, i: nat)
    requires Rooted(g, idx, stack, open, next, base) && base <= i < |stack|
    ensures Mutual(g, stack[base], stack[i])
  {
    var v := stack[i];
    assert Reach(g, stack[base], stack[i]);
    assert ReachesOpen(g, idx, open, v);
    var z := OpenReached(g, idx, open, v);
    PoppedClosed(g, idx, stack, open, next, base);
    BelowByIndex(idx, stack, next, base, i);
    ClosedReach(g, Settled(idx, stack[..base]), v, z);
    assert z in stack;
    var k :| 0 <= k < |stack| && stack[k] == z;
    BelowByIndex(idx, stack, next, base, k);
    assert k == base;
  }

  /** Whatever reaches back to the segment from the segment is in the segment: the settled
      vertices are closed, and so are those settled once the segment is popped. */
  lemma MutualInSegment(g: Graph, idx: Index, stack: seq<string>, open: set<string>, next: nat, base: nat,
                        i: nat, b: string)
    requires Rooted(g, idx, stack, open, next, base) && base <= i < |stack|
    requires Mutual(g, stack[i], b)
    ensures b in stack[base..]
  {
    var s, p := Settled(idx, stack[..base]), Settled(idx, stack);
    PoppedClosed(g, idx, stack, open, next, base);
    BelowByIndex(idx, stack, next, base, i);
    ClosedReach(g, s, stack[i], b);
    if b in stack {
      var j :| 0 <= j < |stack| && stack[j] == b;
      BelowByIndex(idx, stack, next, base, j);
    } else {
      assert b in p && Closed(g, p);
      ClosedReach(g, p, b, stack[i]);
      assert false;
    }
  }

  /** The segment above the root is exactly the root's mutual-reachability class. */
  lemma RootClass(g: Graph, idx: Index, stack: seq<string>, open: set<string>, next: nat, base: nat,
                  i: nat, b: string)
    requires Rooted(g, idx, stack, open, next, base) && base <= i < |stack|
    ensures b in stack[base..] <==> Mutual(g, stack[i], b)
  {
    if b in stack[base..] {
      var x, a := stack[base], stack[i];
      var k :| 0 <= k < |stack[base..]| && stack[base..][k] == b;
      RootReachesBack(g, idx, stack, open, next, base, i);
      RootReachesBack(g, idx, stack, open, next, base, base + k);
      ReachTrans(g, a, x, b);
      ReachTrans(g, b, x, a);
    }
    if Mutual(g, stack[i], b) {
      MutualInSegment(g, idx, stack, open, next, base, i, b);
    }
  }

  lemma PopLinked(g: Graph, idx: Index, stack: seq<string>, open: set<string>, base: nat)
    requires Linked(g, idx, stack, open) && base < |stack| && stack[base] in idx
    requires forall i | 0 <= i < base :: stack[i] in idx && idx[stack[i]] < idx[stack[base]]
    ensures Linked(g, idx, stack[..base], open - {stack[base]})
  {
    var x, below := stack[base], stack[..base];
    forall v | v in below ensures ReachesOpen(g, idx, open - {x}, v) {
      var i :| 0 <= i < base && below[i] == v;
      assert v == stack[i];
      assert ReachesOpen(g, idx, open, v);
      var z := OpenReached(g, idx, open, v);
      assert z in open - {x};
    }
    forall i, j | 0 <= i <= j < base ensures Reach(g, below[i], below[j]) {
      assert Reach(g, stack[i], stack[j]);
    }
  }

  lemma PopKeeps(g: Graph, idx: Index, stack: seq<string>, open: set<string>, next: nat, base: nat)
    requires Rooted(g, idx, stack, open, next, base)
    ensures Searching(g, idx, stack[..base], open - {stack[base]}, next)
  {
    PopExplored(g, idx, stack, open, next, base);
    PopLinked(g, idx, stack, open, base);
  }

  lemma PopExplored(g: Graph, idx: Index, stack: seq<string>, open: set<string>, next: nat, base: nat)
    requires Rooted(g, idx, stack, open, next, base)
    ensures Explored(g, idx, stack[..base], open - {stack[base]})
  {
    var below := stack[..base];
    PoppedClosed(g, idx, stack, open, next, base);
    forall v | v in open - {stack[base]} ensures v in below {
      var i :| 0 <= i < |stack| && stack[i] == v;
      BelowByIndex(idx, stack, next, base, i);
    }
    forall v, w | v in idx && v !in below && Edge(g, v, w) ensures w !in below {
      assert v in Settled(idx, below);
    }
  }

  lemma SegmentMember(g: Graph, idx: Index, stack: seq<string>, open: set<string>, next: nat, base: nat,
                      c: seq<string>, a: string, b: string)
    requires Rooted(g, idx, stack, open, next, base) && Elems(c) == Elems(stack[base..]) && a in c
    ensures b in c <==> Mutual(g, a, b)
    ensures a in idx && a !in stack[..base] && a in stack
  {
    var seg := stack[base..];
    assert a in Elems(seg);
    var i :| 0 <= i < |seg| && seg[i] == a;
    assert stack[base + i] == a;
    RootClass(g, idx, stack, open, next, base, base + i, b);
    assert b in c <==> b in Elems(c);
    BelowByIndex(idx, stack, next, base, base + i);
  }

  /** The sorted segment is a component when it has two or more members. */
  lemma SegmentIsComponent(g: Graph, idx: Index, stack: seq<string>, open: set<string>, next: nat, base: nat,
                           c: seq<string>)
    requires Rooted(g, idx, stack, open, next, base)
    requires Ascending(StringLess, c) && Elems(c) == Elems(stack[base..])
    ensures |c| >= 2 ==> IsComponent(g, c)
    ensures forall v | v in c :: v in idx && v !in stack[..base] && v in stack
  {
    forall a, b | a in c
      ensures (b in c <==> Mutual(g, a, b)) && a in idx && a !in stack[..base] && a in stack
    {
      SegmentMember(g, idx, stack, open, next, base, c, a, b);
    }
  }

  lemma SegmentCovers(g: Graph, idx: Index, stack: seq<string>, open: set<string>, next: nat, base: nat,
                      c: seq<string>, v: string, w: string)
    requires Rooted(g, idx, stack, open, next, base) && Elems(c) == Elems(stack[base..])
    requires v in stack && v !in stack[..base] && v != w && Mutual(g, v, w)
    ensures v in c && |c| >= 2
  {
    var i :| 0 <= i < |stack| && stack[i] == v;
    BelowByIndex(idx, stack, next, base, i);
    RootClass(g, idx, stack, open, next, base, i, w);
    assert v in Elems(c) && w in Elems(c);
    assert v in c && w in c;
  }

  lemma ListedBelow(g: Graph, idx: Index, stack: seq<string>, base: nat, cs: seq<seq<string>>, c: seq<string>)
    requires base <= |stack| && Collected(g, idx, stack, cs)
    requires forall v | v in c :: v in idx && v !in stack[..base] && v in stack
    ensures forall i | 0 <= i < |cs| :: Listed(g, idx, stack[..base], cs[i]) && Apart(cs[i], c)
  {
    forall i | 0 <= i < |cs| ensures Listed(g, idx, stack[..base], cs[i]) && Apart(cs[i], c) {
      assert Listed(g, idx, stack, cs[i]);
      assert forall v | v in stack[..base] :: v in stack;
    }
  }

  lemma StillCovered(g: Graph, idx: Index, stack: seq<string>, open: set<string>, next: nat, base: nat,
                     cs: seq<seq<string>>, c: seq<string>, v: string, w: string)
    requires Rooted(g, idx, stack, open, next, base) && Collected(g, idx, stack, cs)
    requires Elems(c) == Elems(stack[base..])
    requires v in idx && v !in stack[..base] && v != w && Mutual(g, v, w)
    ensures Covered(if |c| > 1 then cs + [c] else cs, v)
  {
    var cs' := if |c| > 1 then cs + [c] else cs;
    if v in stack {
      SegmentCovers(g, idx, stack, open, next, base, c, v, w);
      assert cs'[|cs|] == c;
    } else {
      assert Covered(cs, v);
      var i :| 0 <= i < |cs| && v in cs[i];
      assert v in cs'[i];
    }
  }

  /** Popping the class adds it to the collected components when it has two or more members. */
  lemma CollectKeeps(g: Graph, idx: Index, stack: seq<string>, open: set<string>, next: nat, base: nat,
                     cs: seq<seq<string>>, c: seq<string>)
    requires Rooted(g, idx, stack, open, next, base) && Collected(g, idx, stack, cs)
    requires Ascending(StringLess, c) && Elems(c) == Elems(stack[base..])
    ensures Collected(g, idx, stack[..base], if |c| > 1 then cs + [c] else cs)
  {
    SegmentIsComponent(g, idx, stack, open, next, base, c);
    ListedBelow(g, idx, stack, base, cs, c);
    forall v, w | v in idx && v !in stack[..base] && v != w && Mutual(g, v, w)
      ensures Covered(if |c| > 1 then cs + [c] else cs, v)
    {
      StillCovered(g, idx, stack, open, next, base, cs, c, v, w);
    }
  }

  // ----- scanning the successors of one vertex -----

  /** After i targets of node = stack[base]: they are numbered, and low is the index of a stack
      vertex node reaches, at most every index below that the scanned edges and the vertices
      above node lead to. */
  ghost predicate Scanned(g: Graph, idx: Index, stack: seq<string>, base: nat, low: nat, i: nat) {
    && base < |stack| && stack[base] in idx && i <= |Succ(g, stack[base])|
    && low <= idx[stack[base]]
    && LowReached(g, idx, stack, stack[base], low)
    && Crossing(g, idx, stack, base + 1, low)
    && forall k | 0 <= k < i :: ScannedTarget(idx, stack[..base], Succ(g, stack[base])[k], low)
  }

  ghost predicate ScannedTarget(idx: Index, below: seq<string>, t: string, low: nat) {
    t in idx && (t in below ==> low <= idx[t])
  }

  lemma TargetIsVertex(g: Graph, node: string, i: nat)
    requires i < |Succ(g, node)|
    ensures var t := Succ(g, node)[i]; t in Vertices(g) && Edge(g, node, t) && Reach(g, node, t)
  {
    ReachEdge(g, node, Succ(g, node)[i]);
    assert node in g && Succ(g, node)[i] in g[node];
  }

  lemma LowerLow(g: Graph, idx: Index, stack: seq<string>, base: nat, low: nat, low': nat, i: nat)
    requires Scanned(g, idx, stack, base, low, i) && i < |Succ(g, stack[base])|
    requires low' <= low && LowReached(g, idx, stack, stack[base], low')
    requires ScannedTarget(idx, stack[..base], Succ(g, stack[base])[i], low')
    ensures Scanned(g, idx, stack, base, low', i + 1)
  {
    forall k | 0 <= k < i + 1
      ensures ScannedTarget(idx, stack[..base], Succ(g, stack[base])[k], low')
    {
      assert k < i ==> ScannedTarget(idx, stack[..base], Succ(g, stack[base])[k], low);
    }
  }

  lemma NumberedTarget(g: Graph, idx: Index, stack: seq<string>, base: nat, low: nat, i: nat)
    requires Scanned(g, idx, stack, base, low, i) && i < |Succ(g, stack[base])|
    requires Succ(g, stack[base])[i] in idx
    ensures var t := Succ(g, stack[base])[i];
            Scanned(g, idx, stack, base, if t in stack then Min(low, idx[t]) else low, i + 1)
  {
    var t := Succ(g, stack[base])[i];
    TargetIsVertex(g, stack[base], i);
    assert t in stack[..base] ==> t in stack;
    LowerLow(g, idx, stack, base, low, if t in stack then Min(low, idx[t]) else low, i);
  }

  /** What was scanned stays scanned while a recursive visit adds vertices on top. */
  lemma ScannedExtends(g: Graph, idx: Index, stack: seq<string>, base: nat, low: nat, i: nat,
                       idx': Index, stack': seq<string>, low': nat)
    requires Scanned(g, idx, stack, base, low, i)
    requires Extends(idx, idx') && stack <= stack' && forall k | 0 <= k < |stack| :: stack[k] in idx
    requires low' <= low && LowReached(g, idx', stack', stack[base], low')
    requires Crossing(g, idx', stack', |stack|, low')
    ensures Scanned(g, idx', stack', base, low', i)
  {
    assert stack[..base] == stack'[..base];
    forall k | 0 <= k < i
      ensures ScannedTarget(idx', stack'[..base], Succ(g, stack'[base])[k], low')
    {
      assert ScannedTarget(idx, stack[..base], Succ(g, stack[base])[k], low);
    }
    CrossingExtends(g, idx, stack, base + 1, low, idx', stack', low');
  }

  lemma CrossingExtends(g: Graph, idx: Index, stack: seq<string>, base: nat, low: nat,
                        idx': Index, stack': seq<string>, low': nat)
    requires base <= |stack| && Crossing(g, idx, stack, base, low)
    requires Extends(idx, idx') && stack <= stack' && forall k | 0 <= k < |stack| :: stack[k] in idx
    requires low' <= low && Crossing(g, idx', stack', |stack|, low')
    ensures Crossing(g, idx', stack', base, low')
  {
    forall i, j | 0 <= j < base <= i < |stack'| && Edge(g, stack'[i], stack'[j]) && stack'[j] in idx'
      ensures low' <= idx'[stack'[j]]
    {
      assert stack'[j] == stack[j];
      if i < |stack| {
        assert stack'[i] == stack[i];
      }
    }
  }

  lemma VisitedTarget(g: Graph, idx: Index, stack: seq<string>, base: nat, low: nat, i: nat,
                      idx': Index, stack': seq<string>, lowT: nat)
    requires Scanned(g, idx, stack, base, low, i) && i < |Succ(g, stack[base])|
    requires Extends(idx, idx') && stack <= stack' && forall k | 0 <= k < |stack| :: stack[k] in idx
    requires Succ(g, stack[base])[i] !in idx && Succ(g, stack[base])[i] in idx'
    requires Crossing(g, idx', stack', |stack|, lowT)
    requires low <= lowT || LowReached(g, idx', stack, Succ(g, stack[base])[i], lowT)
    ensures Scanned(g, idx', stack', base, Min(low, lowT), i + 1)
  {
    var node, t := stack[base], Succ(g, stack[base])[i];
    TargetIsVertex(g, node, i);
    if low <= lowT {
      var y :| y in stack && y in idx && idx[y] == low && Reach(g, node, y);
      assert y in stack' && idx'[y] == low;
    } else {
      var y :| y in stack && y in idx' && idx'[y] == lowT && Reach(g, t, y);
      ReachTrans(g, node, t, y);
      assert y in stack';
    }
    assert Crossing(g, idx', stack', |stack|, Min(low, lowT));
    ScannedExtends(g, idx, stack, base, low, i, idx', stack', Min(low, lowT));
    assert t !in stack[..base] by {
      assert forall v | v in stack[..base] :: v in stack;
      assert forall v | v in stack :: v in idx;
    }
    assert stack'[..base] == stack[..base];
    LowerLow(g, idx', stack', base, Min(low, lowT), Min(low, lowT), i);
  }

  /** When all targets are scanned, low bounds every index that edges from the segment lead to. */
  lemma AllScanned(g: Graph, idx: Index, stack: seq<string>, base: nat, low: nat)
    requires base < |stack| && Scanned(g, idx, stack, base, low, |Succ(g, stack[base])|)
    ensures Crossing(g, idx, stack, base, low)
    ensures forall w | Edge(g, stack[base], w) :: w in idx
  {
    var targets := Succ(g, stack[base]);
    forall w | Edge(g, stack[base], w)
      ensures ScannedTarget(idx, stack[..base], w, low)
    {
      var k :| 0 <= k < |targets| && targets[k] == w;
    }
    forall i, j | 0 <= j < base <= i < |stack| && Edge(g, stack[i], stack[j]) && stack[j] in idx
      ensures low <= idx[stack[j]]
    {
      if i == base {
        assert stack[..base][j] == stack[j];
      }
    }
  }

  lemma LowBelow(g: Graph, idx: Index, stack: seq<string>, next: nat, base: nat, low: nat)
    requires Numbered(idx, stack, next) && base < |stack|
    requires LowReached(g, idx, stack, stack[base], low) && low < idx[stack[base]]
    ensures LowReached(g, idx, stack[..base], stack[base], low)
  {
    var y :| y in stack && y in idx && idx[y] == low && Reach(g, stack[base], y);
    var i :| 0 <= i < |stack| && stack[i] == y;
    assert i < base;
    assert stack[..base][i] == y;
  }

  lemma RootReady(g: Graph, idx: Index, stack: seq<string>, open: set<string>, next: nat, base: nat)
    requires Searching(g, idx, stack, open, next) && base < |stack|
    requires forall v | v in open - {stack[base]} :: v in stack[..base]
    requires stack[base] in open && forall w | Edge(g, stack[base], w) :: w in idx
    requires Crossing(g, idx, stack, base, idx[stack[base]])
    ensures Rooted(g, idx, stack, open, next, base)
  {
    forall i | base <= i < |stack| ensures stack[i] in open <==> i == base {
      BelowByIndex(idx, stack, next, base, i);
      assert i != base ==> stack[i] != stack[base];
    }
  }
}
