/** The exclusion test applied while a clause scope is expanded, against what the selector
    matcher will answer for every possible action. */
module ScopeExpansion {
  import opened Prelude
  import opened Ordering
  import opened PosixPath
  import opened Text
  import opened SelectorMatch

  predicate PathForm(f: Form) { f.Path? || f.Repo? }

  /** `PurePosixPath(value).parts` */
  function Parts(value: string): seq<string> {
    var p := Parse(value);
    (if p.root == "" then [] else [p.root]) + p.segments
  }

  /** `_wholly_excluded` */
  predicate WhollyExcluded(target: Selector, exclusion: Selector) {
    && target.Concrete? && exclusion.Concrete?
    && if PathForm(target.form) && PathForm(exclusion.form) then Parts(exclusion.value) <= Parts(target.value)
       else
         && (target.form.Remote? || target.form.Endpoint? || target.form.Host?)
         && target.form == exclusion.form && target.value == exclusion.value
  }

  /** Every target of the element is contained in some single exclusion. */
  predicate Emptied(element: seq<Selector>, exclusions: seq<Selector>) {
    forall t | t in element :: Contained(t, exclusions)
  }

  predicate Contained(t: Selector, exclusions: seq<Selector>) {
    exists e | e in exclusions :: WhollyExcluded(t, e)
  }

  function Spelling(s: Selector): string {
    match s
    case Any(w) => (
      match w
      case AnyRemote => "any-remote"
      case AnyEndpoint => "any-endpoint"
      case AnySendChannel => "any-send-channel"
      case AnyCloudResource => "any-cloud-resource"
      case AnyRepository => "any-repository")
    case Concrete(f, v) => Label(f) + v
  }

  function Label(f: Form): string {
    match f
    case Path => "path:"
    case Repo => "repo:"
    case Glob => "path-glob:"
    case Remote => "remote:"
    case Endpoint => "endpoint:"
    case Host => "host:"
  }

  function Texts(elements: seq<seq<Selector>>): set<string> {
    set element, t | element in elements && t in element :: Spelling(t)
  }

  /** The target loop of `expand_clause_scope_v2`, after its template forms are resolved: every
      subject but admit refuses an element that the exclusions empty. */
  method ExpandTargets(subject: Subject, elements: seq<seq<Selector>>, exclusions: seq<Selector>)
    returns (targets: Result<seq<string>>)
    ensures targets.Err? <==> !subject.Admit? && exists element :: element in elements && Emptied(element, exclusions)
    ensures targets.Ok? ==> Ascending(StringLess, targets.value) && Elems(targets.value) == Texts(elements)
  {
    var found: set<string> := {};
    for i := 0 to |elements|
      invariant found == Texts(elements[..i])
      invariant subject.Admit? || forall j | 0 <= j < i :: !Emptied(elements[j], exclusions)
    {
      if !subject.Admit? && Emptied(elements[i], exclusions) {
        assert elements[i] in elements;
        return Err;
      }
      assert elements[..i + 1] == elements[..i] + [elements[i]];
      found := found + set t | t in elements[i] :: Spelling(t);
    }
    assert elements[..|elements|] == elements;
    var sorted := SortNames(found);
    return Ok(sorted);
  }

  // ----- which actions an element still reaches -----

  /** The matcher accepts action a for a target of the element and for none of the exclusions. */
  ghost predicate Reached(element: seq<Selector>, exclusions: seq<Selector>, subject: Subject, c: EffectClass,
      remotes: Remotes, a: Action)
  {
    && (exists t :: t in element && Match(t, subject, false, c, a, remotes) == Ok(true))
    && forall e | e in exclusions :: Match(e, subject, true, c, a, remotes) == Ok(false)
  }

  ghost predicate SomethingReached(element: seq<Selector>, exclusions: seq<Selector>, subject: Subject, c: EffectClass,
      remotes: Remotes)
  {
    exists a :: Reached(element, exclusions, subject, c, remotes, a)
  }

  predicate ValidTargets(element: seq<Selector>, subject: Subject, remotes: Remotes) {
    forall t | t in element :: t.Concrete? && ValidSelector(t, subject, false, remotes)
  }

  predicate ValidExclusions(exclusions: seq<Selector>, subject: Subject, remotes: Remotes) {
    forall e | e in exclusions :: ValidSelector(e, subject, true, remotes)
  }

  /** The action that is the selector itself. */
  function Own(t: Selector, kind: Kind): Action
    requires t.Concrete?
  {
    match t.form
    case Path => Action(kind, TPath, t.value)
    case Repo => Action(kind, TPath, t.value)
    case Glob => Action(kind, TPath, t.value)
    case Remote => Action(kind, TRemote, t.value)
    case Endpoint => Action(kind, TEndpoint, t.value)
    case Host => Action(kind, TEndpoint, "host:" + t.value)
  }

  /** Some kind of action of the class can carry the target itself. */
  predicate Offered(t: Selector, c: EffectClass, remotes: Remotes, kind: Kind)
    requires t.Concrete?
  {
    Allows(c, kind, Own(t, kind).form) && ValidAction(Own(t, kind), remotes)
  }

  ghost predicate OfferedSomehow(t: Selector, c: EffectClass, remotes: Remotes)
    requires t.Concrete?
  {
    exists kind :: Offered(t, c, remotes, kind)
  }

  lemma {:induction false} HostParts(v: string)
    requires Variant(v)
    ensures ServiceResource("host:" + v) && Split("host:" + v, ':')[0] == "host"
  {
    SplitPlain(v, ':');
    SplitFirst("host", v, ':');
    assert "host" + [':'] + v == "host:" + v;
  }

  /** A target that covers a valid action also covers itself as an action of the same kind. */
  lemma SelectsOwn(t: Selector, subject: Subject, c: EffectClass, remotes: Remotes, a: Action)
    requires t.Concrete? && Match(t, subject, false, c, a, remotes) == Ok(true)
    ensures Offered(t, c, remotes, a.kind) && Selects(t, Own(t, a.kind))
  {
  }

  /** Whatever covers the target itself covers every action the target covers. */
  lemma SelectsBelow(t: Selector, e: Selector, subject: Subject, c: EffectClass, remotes: Remotes, a: Action)
    requires t.Concrete? && Match(t, subject, false, c, a, remotes) == Ok(true)
    requires e.Concrete? && ValidSelector(e, subject, true, remotes)
    requires Selects(e, Own(t, a.kind))
    ensures Match(e, subject, true, c, a, remotes) == Ok(true)
  {
  }

  lemma SelectsItself(t: Selector, subject: Subject, c: EffectClass, remotes: Remotes, kind: Kind)
    requires t.Concrete? && ValidSelector(t, subject, false, remotes) && Offered(t, c, remotes, kind)
    ensures Match(t, subject, false, c, Own(t, kind), remotes) == Ok(true)
  {
    if t.form.Host? {
      HostParts(t.value);
    }
  }

  /** The target is offered, and no exclusion selects it. */
  ghost predicate OwnFree(t: Selector, exclusions: seq<Selector>, c: EffectClass, remotes: Remotes, kind: Kind)
    requires t.Concrete?
  {
    Offered(t, c, remotes, kind) && forall e | e in exclusions :: !Selects(e, Own(t, kind))
  }

  lemma NoExclusionSelects(t: Selector, exclusions: seq<Selector>, subject: Subject, c: EffectClass,
      remotes: Remotes, a: Action)
    requires t.Concrete? && Match(t, subject, false, c, a, remotes) == Ok(true)
    requires forall e | e in exclusions :: Match(e, subject, true, c, a, remotes) == Ok(false)
    ensures OwnFree(t, exclusions, c, remotes, a.kind)
  {
    hide ValidAction, Allows, Selects, Own;
    SelectsOwn(t, subject, c, remotes, a);
    forall e | e in exclusions ensures !Selects(e, Own(t, a.kind)) {
      assert e.Concrete?;
      if Selects(e, Own(t, a.kind)) {
        SelectsBelow(t, e, subject, c, remotes, a);
      }
    }
  }

  lemma OwnReached(t: Selector, element: seq<Selector>, exclusions: seq<Selector>, subject: Subject, c: EffectClass,
      remotes: Remotes, kind: Kind)
    requires t in element && t.Concrete? && ValidSelector(t, subject, false, remotes)
    requires ValidExclusions(exclusions, subject, remotes) && OwnFree(t, exclusions, c, remotes, kind)
    ensures Reached(element, exclusions, subject, c, remotes, Own(t, kind))
  {
    hide ValidAction, Allows, Selects, ValidSelector, Own;
    SelectsItself(t, subject, c, remotes, kind);
  }

  /** With any exclusions, globs included: some action is reached exactly when some target of
      the element is itself an action that no exclusion selects. */
  lemma ReachedExact(element: seq<Selector>, exclusions: seq<Selector>, subject: Subject, c: EffectClass,
      remotes: Remotes)
    requires ValidTargets(element, subject, remotes) && ValidExclusions(exclusions, subject, remotes)
    ensures SomethingReached(element, exclusions, subject, c, remotes) <==>
            exists t, kind :: t in element && OwnFree(t, exclusions, c, remotes, kind)
  {
    hide ValidSelector, Match, OwnFree, Own;
    if a :| Reached(element, exclusions, subject, c, remotes, a) {
      var t :| t in element && Match(t, subject, false, c, a, remotes) == Ok(true);
      NoExclusionSelects(t, exclusions, subject, c, remotes, a);
    }
    if t, kind :| t in element && OwnFree(t, exclusions, c, remotes, kind) {
      OwnReached(t, element, exclusions, subject, c, remotes, kind);
    }
  }

  // ----- the static test -----

  lemma PartsExact(e: string, t: string)
    requires CanonicalPath(e, false) && CanonicalPath(t, false)
    ensures Parts(e) <= Parts(t) <==> PathCovers(e, t)
  {
    CanonicalParse(e, false);
    CanonicalParse(t, false);
    PrefixCons("/", Segments(e), Segments(t));
  }

  lemma PrefixCons(h: string, a: seq<string>, b: seq<string>)
    ensures [h] + a <= [h] + b <==> a <= b
  {
    var x, y := [h] + a, [h] + b;
    assert x[1..] == a && y[1..] == b;
    if a <= b {
      assert y[..|x|] == x;
    }
    if x <= y {
      assert y[..|x|][1..] == b[..|a|];
    }
  }

  /** For an exclusion that is not a glob, containment of the target is selection of it. */
  lemma ContainmentExact(t: Selector, e: Selector, subject: Subject, c: EffectClass, remotes: Remotes, kind: Kind)
    requires t.Concrete? && ValidSelector(t, subject, false, remotes) && Offered(t, c, remotes, kind)
    requires ValidSelector(e, subject, true, remotes)
    ensures WhollyExcluded(t, e) ==> Selects(e, Own(t, kind))
    ensures !e.form.Glob? ==> (WhollyExcluded(t, e) <==> Selects(e, Own(t, kind)))
  {
    hide Parts, CanonicalPath;
    if PathForm(t.form) && PathForm(e.form) {
      PartsExact(e.value, t.value);
    } else if t.form.Host? {
      HostParts(t.value);
      assert ("host:" + t.value)[5..] == t.value && ("host:" + e.value)[5..] == e.value;
    }
  }

  /** Refusing is right whatever the exclusions are. */
  lemma RefusalSound(element: seq<Selector>, exclusions: seq<Selector>, subject: Subject, c: EffectClass,
      remotes: Remotes)
    requires ValidTargets(element, subject, remotes) && ValidExclusions(exclusions, subject, remotes)
    ensures Emptied(element, exclusions) ==> !SomethingReached(element, exclusions, subject, c, remotes)
  {
    hide ValidAction, Allows, Selects, ValidSelector, WhollyExcluded, SomethingReached, OwnFree, Offered;
    ReachedExact(element, exclusions, subject, c, remotes);
    if Emptied(element, exclusions) {
      forall t, kind | t in element ensures !OwnFree(t, exclusions, c, remotes, kind) {
        ContainedNotFree(t, exclusions, subject, c, remotes, kind);
      }
    }
  }

  lemma ContainedNotFree(t: Selector, exclusions: seq<Selector>, subject: Subject, c: EffectClass, remotes: Remotes,
      kind: Kind)
    requires t.Concrete? && ValidSelector(t, subject, false, remotes) && ValidExclusions(exclusions, subject, remotes)
    requires Contained(t, exclusions)
    ensures !OwnFree(t, exclusions, c, remotes, kind)
  {
    hide ValidAction, Allows, Selects, ValidSelector, WhollyExcluded;
    if OwnFree(t, exclusions, c, remotes, kind) {
      var e :| e in exclusions && WhollyExcluded(t, e);
      ContainmentExact(t, e, subject, c, remotes, kind);
    }
  }

  predicate GlobFree(exclusions: seq<Selector>) {
    forall e | e in exclusions :: e.Concrete? && !e.form.Glob?
  }

  /** Without globs, testing one exclusion at a time against each target decides whether any
      action is left, for every class that offers an action for the target. */
  lemma GlobFreeExact(element: seq<Selector>, exclusions: seq<Selector>, subject: Subject, c: EffectClass,
      remotes: Remotes)
    requires ValidTargets(element, subject, remotes) && ValidExclusions(exclusions, subject, remotes) &&
             GlobFree(exclusions)
    ensures SomethingReached(element, exclusions, subject, c, remotes) <==>
            exists t :: t in element && OfferedSomehow(t, c, remotes) && !Contained(t, exclusions)
  {
    hide ValidAction, Allows, Selects, ValidSelector, WhollyExcluded, SomethingReached, Offered;
    ReachedExact(element, exclusions, subject, c, remotes);
    if t, kind :| t in element && OwnFree(t, exclusions, c, remotes, kind) {
      assert OfferedSomehow(t, c, remotes);
      if Contained(t, exclusions) {
        ContainedNotFree(t, exclusions, subject, c, remotes, kind);
      }
    }
    if t :| t in element && OfferedSomehow(t, c, remotes) && !Contained(t, exclusions) {
      var kind :| Offered(t, c, remotes, kind);
      forall e | e in exclusions ensures !Selects(e, Own(t, kind)) {
        ContainmentExact(t, e, subject, c, remotes, kind);
      }
      assert OwnFree(t, exclusions, c, remotes, kind);
    }
  }

  /** A veto never has glob exclusions, so its refusals are always exact. */
  lemma VetoIsGlobFree(exclusions: seq<Selector>, remotes: Remotes)
    requires ValidExclusions(exclusions, Veto, remotes)
    ensures GlobFree(exclusions)
  {
  }

  /** Expansion refuses exactly when nothing is left, for a veto always and for every other
      subject when no exclusion is a glob. */
  lemma RefusalExact(element: seq<Selector>, exclusions: seq<Selector>, subject: Subject, c: EffectClass,
      remotes: Remotes)
    requires ValidTargets(element, subject, remotes) && ValidExclusions(exclusions, subject, remotes)
    requires subject.Veto? || GlobFree(exclusions)
    requires forall t | t in element :: OfferedSomehow(t, c, remotes)
    ensures Emptied(element, exclusions) <==> !SomethingReached(element, exclusions, subject, c, remotes)
  {
    if subject.Veto? {
      VetoIsGlobFree(exclusions, remotes);
    }
    hide ValidAction, Allows, Selects, ValidSelector, WhollyExcluded, SomethingReached, Offered;
    GlobFreeExact(element, exclusions, subject, c, remotes);
  }

  /** Whatever the exclusions, globs included: the refusal agrees with what is left exactly when
      the element is refused or one of its targets is itself an action no exclusion selects. */
  lemma AgreementExact(element: seq<Selector>, exclusions: seq<Selector>, subject: Subject, c: EffectClass,
      remotes: Remotes)
    requires ValidTargets(element, subject, remotes) && ValidExclusions(exclusions, subject, remotes)
    ensures (Emptied(element, exclusions) <==> !SomethingReached(element, exclusions, subject, c, remotes)) <==>
            Emptied(element, exclusions) || exists t, kind :: t in element && OwnFree(t, exclusions, c, remotes, kind)
  {
    hide Emptied, SomethingReached, OwnFree, ValidTargets, ValidExclusions;
    ReachedExact(element, exclusions, subject, c, remotes);
    RefusalSound(element, exclusions, subject, c, remotes);
  }

  lemma TwoCanonical(last: char, glob: bool)
    requires last == 'b' || (last == '*' && glob)
    ensures CanonicalPath("/a/" + [last], glob) && Segments("/a/" + [last]) == ["a", [last]]
  {
    TwoParts(last);
    var v := "/a/" + [last];
    assert v == ['/', 'a', '/', last];
    assert forall p | p in Split(v[1..], '/') :: p == "a" || p == [last];
  }

  lemma GlobGapValid(remotes: Remotes)
    ensures ValidSelector(Concrete(Path, "/a/b"), Rate, false, remotes)
    ensures ValidSelector(Concrete(Glob, "/a/*"), Rate, true, remotes)
    ensures GlobCovers(Segments("/a/*"), Segments("/a/b"))
  {
    hide CanonicalPath, Segments;
    TwoCanonical('b', false);
    TwoCanonical('*', true);
    assert "/a/" + ['b'] == "/a/b" && "/a/" + ['*'] == "/a/*";
  }

  /** With a glob the static test can accept an element that reaches nothing. */
  lemma GlobGap(remotes: Remotes)
    ensures var target, glob := Concrete(Path, "/a/b"), Concrete(Glob, "/a/*");
            && ValidTargets([target], Rate, remotes) && ValidExclusions([glob], Rate, remotes)
            && !Emptied([target], [glob]) && !SomethingReached([target], [glob], Rate, Read, remotes)
  {
    var target, glob := Concrete(Path, "/a/b"), Concrete(Glob, "/a/*");
    GlobGapValid(remotes);
    assert target in [target];
    ReachedExact([target], [glob], Rate, Read, remotes);
    forall t, kind | t in [target] ensures !OwnFree(t, [glob], Read, remotes, kind) {
      assert glob in [glob] && Selects(glob, Own(target, kind));
    }
  }

  lemma TwoParts(last: char)
    requires last != '/'
    ensures Segments("/a/" + [last]) == ["a", [last]]
  {
    var v := "/a/" + [last];
    assert v[1..] == "a" + ['/'] + [last];
    SplitPlain([last], '/');
    SplitFirst("a", [last], '/');
  }
}
