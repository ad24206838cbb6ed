/** Strict total orders, the lexicographic order Python uses on strings and
    tuples, and the results of `sorted(...)` and `sorted(set(...))`. */
module Ordering {

  ghost predicate StrictTotal<T(!new)>(lt: (T, T) -> bool) {
    && (forall x :: !lt(x, x))
    && (forall x, y, z :: lt(x, y) && lt(y, z) ==> lt(x, z))
    && (forall x, y :: x == y || lt(x, y) || lt(y, x))
  }

  ghost predicate StrictOrder<T(!new)>(lt: (T, T) -> bool) {
    (forall x :: !lt(x, x)) && forall x, y, z :: lt(x, y) && lt(y, z) ==> lt(x, z)
  }

  /** The order of a sort key: values with equal keys are not comparable. */
  ghost predicate StrictWeak<T(!new)>(lt: (T, T) -> bool) {
    && (forall x :: !lt(x, x))
    && (forall x, y, z :: lt(x, y) && lt(y, z) ==> lt(x, z))
    && (forall x, y, z :: lt(x, z) ==> lt(x, y) || lt(y, z))
  }

  lemma TotalIsWeak<T(!new)>(lt: (T, T) -> bool)
    requires StrictTotal(lt)
    ensures StrictWeak(lt)
  {
    forall x, y, z | lt(x, z) ensures lt(x, y) || lt(y, z) {
    }
  }

  ghost predicate Ascending<T>(lt: (T, T) -> bool, xs: seq<T>) {
    forall i, j | 0 <= i < j < |xs| :: lt(xs[i], xs[j])
  }

  ghost predicate Ordered<T>(lt: (T, T) -> bool, xs: seq<T>) {
    forall i, j | 0 <= i < j < |xs| :: !lt(xs[j], xs[i])
  }

  ghost predicate Distinct<T>(xs: seq<T>) {
    forall i, j | 0 <= i < j < |xs| :: xs[i] != xs[j]
  }

  function Elems<T>(xs: seq<T>): set<T> {
    set x | x in xs
  }

  /** Lexicographic comparison; a proper prefix comes first. */
  predicate Lex<T(==)>(lt: (T, T) -> bool, a: seq<T>, b: seq<T>) {
    if |b| == 0 then false
    else if |a| == 0 then true
    else lt(a[0], b[0]) || (a[0] == b[0] && Lex(lt, a[1..], b[1..]))
  }

  /** Equal up to position k, and smaller there. */
  ghost predicate DifferAt<T>(lt: (T, T) -> bool, a: seq<T>, b: seq<T>, k: nat) {
    k < |a| && k < |b| && a[..k] == b[..k] && a[k] != b[k] && lt(a[k], b[k])
  }

  lemma {:induction false} LexPrefix<T(!new)>(lt: (T, T) -> bool, p: seq<T>, a: seq<T>, b: seq<T>)
    requires forall x :: !lt(x, x)
    ensures Lex(lt, p + a, p + b) <==> Lex(lt, a, b)
  {
    if p == [] {
      assert p + a == a && p + b == b;
    } else {
      LexPrefix(lt, p[1..], a, b);
      assert (p + a)[1..] == p[1..] + a && (p + b)[1..] == p[1..] + b;
    }
  }

  lemma {:induction false} LexDiffer<T(!new)>(lt: (T, T) -> bool, a: seq<T>, b: seq<T>, k: nat)
    requires StrictTotal(lt) && DifferAt(lt, a, b, k)
    ensures Lex(lt, a, b) && !Lex(lt, b, a)
  {
    if k > 0 {
      assert a[0] == a[..k][0] && b[0] == b[..k][0];
      assert a[1..][..k - 1] == a[..k][1..] && b[1..][..k - 1] == b[..k][1..];
      LexDiffer(lt, a[1..], b[1..], k - 1);
    }
  }

  predicate CharLess(a: char, b: char) { a < b }

  predicate StringLess(a: string, b: string) { Lex(CharLess, a, b) }

  predicate StringsLess(a: seq<string>, b: seq<string>) { Lex(StringLess, a, b) }

  /** What the order means: a proper prefix comes first, and otherwise the first difference
      decides. */
  lemma {:induction false} LexMeaning<T(!new)>(lt: (T, T) -> bool, a: seq<T>, b: seq<T>)
    requires forall x :: !lt(x, x)
    ensures Lex(lt, a, b) <==> a < b || exists k: nat :: DifferAt(lt, a, b, k)
  {
    if a != [] && b != [] {
      if a[0] == b[0] {
        LexMeaning(lt, a[1..], b[1..]);
        SharedHead(lt, a, b);
      } else {
        assert lt(a[0], b[0]) ==> DifferAt(lt, a, b, 0);
        forall k: nat | DifferAt(lt, a, b, k) ensures k == 0 {
          SameFront(a, b, k);
        }
      }
    }
  }

  lemma SameFront<T>(a: seq<T>, b: seq<T>, k: nat)
    requires k <= |a| && k <= |b| && a[..k] == b[..k]
    ensures k == 0 || a[0] == b[0]
  {
    assert k > 0 ==> a[..k][0] == b[..k][0];
  }

  lemma PrefixFront<T>(a: seq<T>, b: seq<T>)
    requires a != [] && b != []
    ensures a <= b ==> a[0] == b[0]
  {
  }

  lemma SharedHead<T(!new)>(lt: (T, T) -> bool, a: seq<T>, b: seq<T>)
    requires a != [] && b != [] && a[0] == b[0] && !lt(a[0], b[0])
    ensures a < b <==> a[1..] < b[1..]
    ensures (exists k: nat :: DifferAt(lt, a, b, k)) <==> exists k: nat :: DifferAt(lt, a[1..], b[1..], k)
  {
    assert a == [a[0]] + a[1..] && b == [b[0]] + b[1..];
    if k: nat :| DifferAt(lt, a, b, k) {
      assert k > 0;
      assert a[1..][..k - 1] == a[..k][1..] && b[1..][..k - 1] == b[..k][1..];
      assert DifferAt(lt, a[1..], b[1..], k - 1);
    }
    if k: nat :| DifferAt(lt, a[1..], b[1..], k) {
      assert a[..k + 1] == [a[0]] + a[1..][..k] && b[..k + 1] == [b[0]] + b[1..][..k];
      assert DifferAt(lt, a, b, k + 1);
    }
  }

  /** Texts are ordered by code points. */
  lemma StringLessMeaning(a: string, b: string)
    ensures StringLess(a, b) <==>
            a < b || exists k: nat :: k < |a| && k < |b| && a[..k] == b[..k] && (a[k] as int) < b[k] as int
  {
    LexMeaning(CharLess, a, b);
    if k: nat :| DifferAt(CharLess, a, b, k) {
      assert a[..k] == b[..k] && (a[k] as int) < b[k] as int;
    }
    if k: nat :| k < |a| && k < |b| && a[..k] == b[..k] && (a[k] as int) < b[k] as int {
      assert DifferAt(CharLess, a, b, k);
    }
  }

  /** Tuples of texts are ordered by their first different text. */
  lemma StringsLessMeaning(a: seq<string>, b: seq<string>)
    ensures StringsLess(a, b) <==>
            a < b || exists k: nat :: k < |a| && k < |b| && a[..k] == b[..k] && StringLess(a[k], b[k])
  {
    StringOrder();
    LexMeaning(StringLess, a, b);
    if k: nat :| DifferAt(StringLess, a, b, k) {
      assert a[..k] == b[..k] && StringLess(a[k], b[k]);
    }
    if k: nat :| k < |a| && k < |b| && a[..k] == b[..k] && StringLess(a[k], b[k]) {
      assert DifferAt(StringLess, a, b, k);
    }
  }

  lemma {:induction false} LexIrreflexive<T(!new)>(lt: (T, T) -> bool, a: seq<T>)
    requires StrictTotal(lt)
    ensures !Lex(lt, a, a)
  {
    if a != [] {
      LexIrreflexive(lt, a[1..]);
    }
  }

  lemma {:induction false} LexTransitive<T(!new)>(lt: (T, T) -> bool, a: seq<T>, b: seq<T>, c: seq<T>)
    requires StrictTotal(lt) && Lex(lt, a, b) && Lex(lt, b, c)
    ensures Lex(lt, a, c)
  {
    if a != [] && a[0] == b[0] == c[0] {
      LexTransitive(lt, a[1..], b[1..], c[1..]);
    }
  }

  lemma {:induction false} LexTotal<T(!new)>(lt: (T, T) -> bool, a: seq<T>, b: seq<T>)
    requires StrictTotal(lt)
    ensures a == b || Lex(lt, a, b) || Lex(lt, b, a)
  {
    if a != [] && b != [] && a[0] == b[0] {
      LexTotal(lt, a[1..], b[1..]);
      assert a == [a[0]] + a[1..] && b == [b[0]] + b[1..];
    }
  }

  lemma StringOrder()
    ensures StrictTotal(StringLess)
  {
    forall a: string ensures !StringLess(a, a) { LexIrreflexive(CharLess, a); }
    forall a: string, b: string, c: string | StringLess(a, b) && StringLess(b, c)
      ensures StringLess(a, c)
    { LexTransitive(CharLess, a, b, c); }
    forall a: string, b: string ensures a == b || StringLess(a, b) || StringLess(b, a) {
      LexTotal(CharLess, a, b);
    }
  }

  lemma StringsOrder()
    ensures StrictTotal(StringsLess)
  {
    StringOrder();
    forall a: seq<string> ensures !StringsLess(a, a) { LexIrreflexive(StringLess, a); }
    forall a: seq<string>, b: seq<string>, c: seq<string> | StringsLess(a, b) && StringsLess(b, c)
      ensures StringsLess(a, c)
    { LexTransitive(StringLess, a, b, c); }
    forall a: seq<string>, b: seq<string> ensures a == b || StringsLess(a, b) || StringsLess(b, a) {
      LexTotal(StringLess, a, b);
    }
  }

  /** The stable insertion behind `sorted(xs)`. */
  function Insert<T>(lt: (T, T) -> bool, x: T, xs: seq<T>): seq<T> {
    if xs == [] || !lt(xs[0], x) then [x] + xs else [xs[0]] + Insert(lt, x, xs[1..])
  }

  function SortBy<T>(lt: (T, T) -> bool, xs: seq<T>): seq<T> {
    if xs == [] then [] else Insert(lt, xs[0], SortBy(lt, xs[1..]))
  }

  /** `sorted(set(xs))`: like `SortBy`, but a repeated value is kept once. */
  function SortUnique<T(==)>(lt: (T, T) -> bool, xs: seq<T>): seq<T> {
    if xs == [] then []
    else if xs[0] in xs[1..] then SortUnique(lt, xs[1..])
    else Insert(lt, xs[0], SortUnique(lt, xs[1..]))
  }

  lemma {:induction false} InsertMultiset<T>(lt: (T, T) -> bool, x: T, xs: seq<T>)
    ensures multiset(Insert(lt, x, xs)) == multiset(xs) + multiset{x}
  {
    if xs == [] || !lt(xs[0], x) {
    } else {
      InsertMultiset(lt, x, xs[1..]);
      assert xs == [xs[0]] + xs[1..];
    }
  }

  lemma {:induction false} InsertOrdered<T(!new)>(lt: (T, T) -> bool, x: T, xs: seq<T>)
    requires StrictWeak(lt) && Ordered(lt, xs)
    ensures Ordered(lt, Insert(lt, x, xs))
  {
    if xs == [] || !lt(xs[0], x) {
      var r := [x] + xs;
      forall i, j | 0 <= i < j < |r| ensures !lt(r[j], r[i]) {
        if i == 0 { assert j == 1 || !lt(xs[j - 1], xs[0]); } else { assert !lt(xs[j - 1], xs[i - 1]); }
      }
    } else {
      var t := Insert(lt, x, xs[1..]);
      InsertOrdered(lt, x, xs[1..]);
      InsertMultiset(lt, x, xs[1..]);
      var r := [xs[0]] + t;
      forall i, j | 0 <= i < j < |r| ensures !lt(r[j], r[i]) {
        if i == 0 {
          assert t[j - 1] in multiset(t);
          if t[j - 1] != x {
            assert t[j - 1] in xs[1..];
            var k :| 0 <= k < |xs[1..]| && xs[1..][k] == t[j - 1];
            assert !lt(xs[k + 1], xs[0]);
          }
        } else {
          assert !lt(t[j - 1], t[i - 1]);
        }
      }
    }
  }

  /** `sorted` returns an ordered permutation of its input. */
  lemma {:induction false} SortBySorts<T(!new)>(lt: (T, T) -> bool, xs: seq<T>)
    requires StrictWeak(lt)
    ensures Ordered(lt, SortBy(lt, xs)) && multiset(SortBy(lt, xs)) == multiset(xs)
    ensures Elems(SortBy(lt, xs)) == Elems(xs) && |SortBy(lt, xs)| == |xs|
  {
    if xs != [] {
      SortBySorts(lt, xs[1..]);
      InsertOrdered(lt, xs[0], SortBy(lt, xs[1..]));
      InsertMultiset(lt, xs[0], SortBy(lt, xs[1..]));
      assert xs == [xs[0]] + xs[1..];
    }
    SameMultiset(SortBy(lt, xs), xs);
  }

  lemma SameMultiset<T>(a: seq<T>, b: seq<T>)
    requires multiset(a) == multiset(b)
    ensures Elems(a) == Elems(b) && |a| == |b|
  {
    assert |a| == |multiset(a)| == |multiset(b)| == |b|;
    forall x ensures x in a <==> x in b {
      assert x in a <==> x in multiset(a);
      assert x in b <==> x in multiset(b);
    }
  }

  /** Any two of the values at different positions are comparable. */
  ghost predicate Comparable<T>(lt: (T, T) -> bool, xs: seq<T>) {
    forall i, j | 0 <= i < j < |xs| :: lt(xs[i], xs[j]) || lt(xs[j], xs[i])
  }

  lemma OrderedAscends<T(!new)>(lt: (T, T) -> bool, r: seq<T>, xs: seq<T>)
    requires StrictWeak(lt) && Ordered(lt, r) && Comparable(lt, xs) && multiset(r) == multiset(xs)
    ensures Ascending(lt, r)
  {
    SameMultiset(r, xs);
    assert forall x :: x in Elems(r) <==> x in Elems(xs);
    forall i, j | 0 <= i < j < |r| ensures lt(r[i], r[j]) {
      assert !lt(r[j], r[i]);
      if r[i] == r[j] {
        RepeatedInMultiset(r, i, j);
        assert Distinct(xs);
        DistinctMultiset(xs, r[i]);
        assert false;
      }
      assert r[i] in Elems(r) && r[j] in Elems(r);
      assert r[i] in xs && r[j] in xs;
    }
  }

  /** Sorting values that are all comparable gives a strictly ascending tuple. */
  lemma SortComparable<T(!new)>(lt: (T, T) -> bool, xs: seq<T>)
    requires StrictWeak(lt) && Comparable(lt, xs)
    ensures Ascending(lt, SortBy(lt, xs)) && Elems(SortBy(lt, xs)) == Elems(xs)
    ensures |SortBy(lt, xs)| == |xs|
  {
    SortBySorts(lt, xs);
    OrderedAscends(lt, SortBy(lt, xs), xs);
  }

  lemma SortDistinct<T(!new)>(lt: (T, T) -> bool, xs: seq<T>)
    requires StrictTotal(lt) && Distinct(xs)
    ensures Ascending(lt, SortBy(lt, xs)) && Elems(SortBy(lt, xs)) == Elems(xs)
    ensures |SortBy(lt, xs)| == |xs|
  {
    TotalIsWeak(lt);
    SortComparable(lt, xs);
  }

  lemma InsertNew<T(!new)>(lt: (T, T) -> bool, x: T, t: seq<T>)
    requires StrictTotal(lt) && Ascending(lt, t) && x !in t
    ensures Ascending(lt, Insert(lt, x, t)) && Elems(Insert(lt, x, t)) == {x} + Elems(t)
  {
    var r := Insert(lt, x, t);
    TotalIsWeak(lt);
    InsertMultiset(lt, x, t);
    assert multiset(r) == multiset([x] + t);
    AscendingOrdered(lt, t);
    InsertOrdered(lt, x, t);
    assert Distinct([x] + t);
    OrderedAscends(lt, r, [x] + t);
    SameMultiset(r, [x] + t);
  }

  lemma RepeatedInMultiset<T>(xs: seq<T>, i: int, j: int)
    requires 0 <= i < j < |xs| && xs[i] == xs[j]
    ensures multiset(xs)[xs[i]] >= 2
  {
    assert xs == xs[..j] + [xs[j]] + xs[j + 1..];
    assert xs[i] in xs[..j];
    assert multiset(xs) == multiset(xs[..j]) + multiset{xs[j]} + multiset(xs[j + 1..]);
  }

  lemma {:induction false} DistinctMultiset<T>(xs: seq<T>, x: T)
    requires Distinct(xs)
    ensures multiset(xs)[x] <= 1
  {
    if xs != [] {
      assert xs == [xs[0]] + xs[1..];
      DistinctMultiset(xs[1..], x);
      if xs[0] == x {
        assert x !in xs[1..];
        assert multiset(xs[1..])[x] == 0;
      }
    }
  }

  lemma {:induction false} SortUniqueSorts<T(!new)>(lt: (T, T) -> bool, xs: seq<T>)
    requires StrictTotal(lt)
    ensures Ascending(lt, SortUnique(lt, xs)) && Elems(SortUnique(lt, xs)) == Elems(xs)
  {
    if xs != [] {
      var t := SortUnique(lt, xs[1..]);
      SortUniqueSorts(lt, xs[1..]);
      assert xs == [xs[0]] + xs[1..];
      if xs[0] !in xs[1..] {
        assert xs[0] !in Elems(t);
        InsertNew(lt, xs[0], t);
      }
      assert Elems(xs) == {xs[0]} + Elems(xs[1..]);
    }
  }

  lemma AscendingOrdered<T(!new)>(lt: (T, T) -> bool, xs: seq<T>)
    requires StrictTotal(lt) && Ascending(lt, xs)
    ensures Ordered(lt, xs) && Distinct(xs)
  {
  }

  lemma ElemsEmpty<T>(xs: seq<T>)
    ensures Elems(xs) == {} <==> xs == []
  {
    if xs != [] {
      assert xs[0] in Elems(xs);
    }
  }

  lemma FirstIsLeast<T>(lt: (T, T) -> bool, xs: seq<T>, x: T)
    requires Ascending(lt, xs) && x in Elems(xs)
    ensures xs != [] && (xs[0] == x || lt(xs[0], x))
  {
    var i :| 0 <= i < |xs| && xs[i] == x;
  }

  /** A strictly ascending tuple is determined by its set of members. */
  lemma {:induction false} AscendingUnique<T(!new)>(lt: (T, T) -> bool, a: seq<T>, b: seq<T>)
    requires StrictOrder(lt) && Ascending(lt, a) && Ascending(lt, b) && Elems(a) == Elems(b)
    ensures a == b
  {
    ElemsEmpty(a);
    ElemsEmpty(b);
    if a != [] {
      FirstIsLeast(lt, a, b[0]);
      FirstIsLeast(lt, b, a[0]);
      TailElems(lt, a);
      TailElems(lt, b);
      AscendingUnique(lt, a[1..], b[1..]);
      assert a == [a[0]] + a[1..] && b == [b[0]] + b[1..];
    }
  }

  lemma TailElems<T(!new)>(lt: (T, T) -> bool, a: seq<T>)
    requires StrictOrder(lt) && Ascending(lt, a) && a != []
    ensures Elems(a[1..]) == Elems(a) - {a[0]}
  {
    assert a == [a[0]] + a[1..];
    forall x ensures x in a[1..] <==> x in a && x != a[0] {
      if x in a[1..] {
        var k :| 0 <= k < |a[1..]| && a[1..][k] == x;
        assert lt(a[0], a[k + 1]);
      }
    }
  }

  lemma AscendingPosition<T(!new)>(lt: (T, T) -> bool, xs: seq<T>, i: nat, j: nat)
    requires StrictOrder(lt) && Ascending(lt, xs) && i < |xs| && j < |xs| && xs[i] == xs[j]
    ensures i == j
  {
  }

  ghost predicate HasRight<A, B>(rel: (A, B) -> bool, a: A, ys: set<B>) {
    exists b :: b in ys && rel(a, b)
  }

  ghost predicate HasLeft<A, B>(rel: (A, B) -> bool, xs: set<A>, b: B) {
    exists a :: a in xs && rel(a, b)
  }

  ghost predicate OneToOne<A, B>(rel: (A, B) -> bool, xs: set<A>, ys: set<B>) {
    && (forall a {:trigger HasRight(rel, a, ys)} | a in xs :: HasRight(rel, a, ys))
    && (forall b | b in ys :: HasLeft(rel, xs, b))
    && (forall a, b, c | a in xs && b in ys && c in ys && rel(a, b) && rel(a, c) :: b == c)
    && (forall a, b, c | a in xs && b in xs && c in ys && rel(a, c) && rel(b, c) :: a == b)
  }

  /** A one-to-one correspondence preserves size. */
  lemma {:induction false} SameSize<A, B>(rel: (A, B) -> bool, xs: set<A>, ys: set<B>)
    requires OneToOne(rel, xs, ys)
    ensures |xs| == |ys|
  {
    if xs != {} {
      var a :| a in xs;
      assert HasRight(rel, a, ys);
      var b :| b in ys && rel(a, b);
      var xs', ys' := xs - {a}, ys - {b};
      forall x | x in xs' ensures HasRight(rel, x, ys') {
        assert HasRight(rel, x, ys);
      }
      forall y | y in ys' ensures HasLeft(rel, xs', y) {
        assert HasLeft(rel, xs, y);
      }
      SameSize(rel, xs', ys');
    }
  }

  lemma DistinctCons<T>(xs: seq<T>)
    requires xs != []
    ensures Distinct(xs) <==> xs[0] !in xs[1..] && Distinct(xs[1..])
  {
    if Distinct(xs) {
      forall i, j | 0 <= i < j < |xs[1..]| ensures xs[1..][i] != xs[1..][j] {
        assert xs[i + 1] != xs[j + 1];
      }
    }
  }

  lemma {:induction false} SizeMeansDistinct<T>(xs: seq<T>)
    ensures |Elems(xs)| <= |xs|
    ensures |Elems(xs)| == |xs| <==> Distinct(xs)
  {
    if xs != [] {
      SizeMeansDistinct(xs[1..]);
      DistinctCons(xs);
      hide Distinct;
      assert xs == [xs[0]] + xs[1..];
      if xs[0] in xs[1..] {
        assert Elems(xs) == Elems(xs[1..]);
      } else {
        assert Elems(xs) == {xs[0]} + Elems(xs[1..]);
      }
    }
  }

  /** `sorted(names)` for a set, whatever order the set yields its members in. */
  method SortNames(names: set<string>) returns (r: seq<string>)
    ensures Ascending(StringLess, r) && Elems(r) == names
  {
    StringOrder();
    r := [];
    var rest := names;
    while rest != {}
      invariant rest <= names && Elems(r) == names - rest
      invariant Ascending(StringLess, r)
    {
      var x :| x in rest;
      assert x !in Elems(r);
      InsertNew(StringLess, x, r);
      r := Insert(StringLess, x, r);
      rest := rest - {x};
    }
  }
}
