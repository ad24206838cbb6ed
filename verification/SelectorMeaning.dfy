/** What the selector grammar accepts and what a selector covers, said without the matcher's own
    branches: by table rows, by joined path segments, by rendered text. */
module SelectorMeaning {
  import opened Prelude
  import opened Text
  import opened SelectorMatch
  import opened ScopeExpansion

  // ----- the table -----

  const ROWS: set<(EffectClass, Kind, TargetForm)> := {
    (CloudResourceEffect, CloudResource, TEndpoint), (CloudResourceEffect, CloudResource, TRemote),
    (ComputeJob, ComputeHost, TEndpoint),
    (CoordinationMessage, ServiceEndpoint, TEndpoint),
    (ExchangeRecordCreate, FilesystemPath, TPath),
    (ExternalSend, SendChannel, TEndpoint), (ExternalSend, SendChannel, TRemote),
    (GitCommit, Repository, TPath),
    (GitPush, RemoteLocation, TRemote),
    (GitPush, Repository, TRemote),
    (LocalFileWrite, FilesystemPath, TPath),
    (PackageUpload, ServiceEndpoint, TEndpoint),
    (ProviderCall, ServiceEndpoint, TEndpoint),
    (Read, FilesystemPath, TPath),
    (RepoVisibilityChange, Repository, TRemote),
    (SharedStorageWrite, FilesystemPath, TPath),
    (SharedStorageWrite, RemoteLocation, TRemote)
  }

  lemma TableExact(c: EffectClass, kind: Kind, form: TargetForm)
    ensures Allows(c, kind, form) <==> (c, kind, form) in ROWS
  {
  }

  // ----- paths -----

  ghost predicate GoodPart(p: string, glob: bool) {
    && p != "" && p != "." && p != ".." && (forall c | c in p :: c != '/' && 32 <= c as int)
    && (p == "*" ==> glob)
    && (p != "*" ==> '*' !in p)
    && (glob ==> '?' !in p && '[' !in p && ']' !in p)
  }

  ghost predicate Joined(value: string, parts: seq<string>, glob: bool) {
    && value == "/" + (if parts == [] then "" else Join(parts, '/'))
    && forall p | p in parts :: GoodPart(p, glob)
  }

  lemma {:induction false} JoinMembers(parts: seq<string>, sep: char, c: char)
    requires parts != []
    ensures c in Join(parts, sep) <==> (c == sep && |parts| > 1) || exists p :: p in parts && c in p
  {
    if |parts| > 1 {
      JoinMembers(parts[1..], sep, c);
      assert parts == [parts[0]] + parts[1..];
      assert parts[0] in parts;
    }
  }

  lemma JoinedSegments(value: string, parts: seq<string>, glob: bool)
    requires Joined(value, parts, glob)
    ensures Segments(value) == parts
  {
    if parts != [] {
      assert forall i | 0 <= i < |parts| :: parts[i] in parts;
      SplitJoin(parts, '/');
      assert value[1..] == Join(parts, '/') && parts[|parts| - 1] in parts;
      LastPart(parts);
    }
  }

  /** A canonical path is the root, or good segments joined by single slashes behind one. */
  lemma CanonicalExact(value: string, glob: bool)
    ensures CanonicalPath(value, glob) <==> exists parts :: Joined(value, parts, glob)
  {
    if CanonicalPath(value, glob) {
      CanonicalJoined(value, glob);
    }
    if parts :| Joined(value, parts, glob) {
      JoinedCanonical(value, parts, glob);
    }
  }

  lemma CanonicalJoined(value: string, glob: bool)
    requires CanonicalPath(value, glob)
    ensures Joined(value, Segments(value), glob)
  {
    assert value == "/" + value[1..];
    if value != "/" {
      JoinSplit(value[1..], '/');
      var parts := Split(value[1..], '/');
      forall i | 0 <= i < |parts| ensures GoodPart(parts[i], glob) {
        CanonicalPart(value, glob, i);
      }
      hide GoodPart;
      assert forall p | p in parts :: GoodPart(p, glob);
    }
  }

  lemma CanonicalPart(value: string, glob: bool, i: nat)
    requires CanonicalPath(value, glob) && value != "/" && value != "" && i < |Split(value[1..], '/')|
    ensures GoodPart(Split(value[1..], '/')[i], glob)
  {
    var parts := Split(value[1..], '/');
    var p := parts[i];
    assert forall c | c in value :: c >= ' ';
    assert p in parts && Segments(value) == parts;
    assert PlainPart(p, glob) && p != "" && p != "." && p != "..";
    SplitParts(value[1..], '/', i);
    JoinSplit(value[1..], '/');
    hide CanonicalPath, Segments, Split;
    forall c | c in p ensures c != '/' && 32 <= c as int {
      JoinMembers(parts, '/', c);
      assert c in Join(parts, '/') && Join(parts, '/') == value[1..];
      CharOfTail(value, c);
    }
  }

  lemma CharOfTail(value: string, c: char)
    requires value != "" && c in value[1..] && forall d | d in value :: d >= ' '
    ensures 32 <= c as int
  {
    var k :| 0 <= k < |value[1..]| && value[1..][k] == c;
    assert value[k + 1] == c && c in value;
    assert c >= ' ' && ' ' as int == 32;
  }

  lemma JoinedCanonical(value: string, parts: seq<string>, glob: bool)
    requires Joined(value, parts, glob)
    ensures CanonicalPath(value, glob)
  {
    JoinedSegments(value, parts, glob);
    if parts != [] {
      assert value[1..] == Join(parts, '/');
      forall c | c in value ensures c >= ' ' {
        JoinMembers(parts, '/', c);
      }
      assert parts[|parts| - 1] in parts;
      LastPart(parts);
    }
  }

  lemma {:induction false} LastPart(parts: seq<string>)
    requires parts != [] && parts[|parts| - 1] != "" && '/' !in parts[|parts| - 1]
    ensures var j := Join(parts, '/'); j != "" && j[|j| - 1] != '/'
  {
    if |parts| > 1 {
      LastPart(parts[1..]);
    }
  }

  ghost predicate PathMatches(pattern: seq<string>, path: seq<string>) {
    |path| == |pattern| && forall i | 0 <= i < |pattern| && pattern[i] != "*" :: path[i] == pattern[i]
  }

  /** A glob covers what lies at or below some path that agrees with it outside the stars. */
  lemma GlobExact(pattern: seq<string>, target: seq<string>)
    ensures GlobCovers(pattern, target) <==>
            exists path :: PathMatches(pattern, path) && path <= target
  {
    if GlobCovers(pattern, target) {
      assert PathMatches(pattern, target[..|pattern|]) && target[..|pattern|] <= target;
    }
    if path :| PathMatches(pattern, path) && path <= target {
      assert forall i | 0 <= i < |path| :: path[i] == target[i];
    }
  }

  // ----- identifiers and roles -----

  lemma VariantExact(s: string)
    ensures Variant(s) <==>
            && 1 <= |s| <= 64
            && forall i | 0 <= i < |s| ::
                 97 <= s[i] as int <= 122 || (i > 0 && (48 <= s[i] as int <= 57 || s[i] in {'.', '_', '-'}))
  {
    forall i | 0 <= i < |s| ensures s[i] in s && (s[i] in "_.-" <==> s[i] in {'.', '_', '-'}) {
      MarkOfThree(s[i]);
    }
  }

  lemma MarkOfThree(c: char)
    ensures c in "_.-" <==> c in {'.', '_', '-'}
  {
    var marks := "_.-";
    assert marks[0] == '_' && marks[1] == '.' && marks[2] == '-';
  }

  lemma ServiceExact(value: string)
    ensures ServiceResource(value) <==>
            exists service, resource :: Variant(service) && Variant(resource) && value == service + ":" + resource
    ensures forall service, resource | Variant(service) && Variant(resource) && value == service + ":" + resource ::
              Split(value, ':') == [service, resource]
  {
    JoinSplit(value, ':');
    var parts := Split(value, ':');
    if ServiceResource(value) {
      assert parts == [parts[0], parts[1]];
      assert value == parts[0] + ":" + parts[1];
    }
    forall service, resource | Variant(service) && Variant(resource) && value == service + ":" + resource
      ensures parts == [service, resource]
    {
      SplitFirst(service, resource, ':');
      SplitPlain(resource, ':');
    }
  }

  /** The role of a selector matters to the any-selectors and to globs only: the former are
      targets of a veto, the latter exclusions of everything else. */
  lemma RoleExact(s: Selector, subject: Subject, exclusion: bool, remotes: Remotes)
    ensures s.Any? ==> (ValidSelector(s, subject, exclusion, remotes) <==> subject == Veto && !exclusion)
    ensures s.Concrete? && s.form.Glob? ==>
              (ValidSelector(s, subject, exclusion, remotes) <==>
               exclusion && subject != Veto && s.value != "" && '{' !in s.value && '}' !in s.value &&
               CanonicalPath(s.value, true))
    ensures s.Concrete? && !s.form.Glob? ==>
              (ValidSelector(s, subject, exclusion, remotes) <==> Spellable(s, remotes))
  {
    hide CanonicalPath, Variant;
    if s.Concrete? {
      ServiceExact(s.value);
    }
  }

  /** The values a path, repository, remote, endpoint or host selector may carry. */
  ghost predicate Spellable(s: Selector, remotes: Remotes)
    requires s.Concrete? && !s.form.Glob?
  {
    && s.value != "" && '{' !in s.value && '}' !in s.value
    && match s.form
       case Remote => remotes.selector(s.value)
       case Host => Variant(s.value)
       case Endpoint =>
         exists service, resource :: Variant(service) && Variant(resource) && service != "host" &&
                                     s.value == service + ":" + resource
       case _ => CanonicalPath(s.value, false)
  }

  // ----- actions are rendered selectors -----

  /** t renders the action: compute hosts as `host:<id>`, everything else as `form:value`. */
  ghost predicate Renders(t: Selector, a: Action) {
    t.Concrete? && t.form in {Path, Remote, Endpoint, Host} && Own(t, a.kind) == a
    && (t.form == Host <==> a.kind == ComputeHost)
  }

  /** An extracted action is valid exactly when some admit target renders it and, for a remote,
      the journal accepts its value too. */
  lemma ActionExact(a: Action, remotes: Remotes)
    ensures ValidAction(a, remotes) <==>
            && (exists t :: Renders(t, a) && ValidSelector(t, Admit, false, remotes))
            && (a.form.TRemote? ==> remotes.extracted(a.value))
  {
    hide CanonicalPath, Variant;
    if ValidAction(a, remotes) {
      var t := Rendering(a);
      ActionRendered(a, remotes);
    }
    if a.form.TRemote? ==> remotes.extracted(a.value) {
      if t :| Renders(t, a) && ValidSelector(t, Admit, false, remotes) {
        RenderedValid(t, a, remotes);
      }
    }
  }

  function Rendering(a: Action): Selector {
    if a.kind.ComputeHost? then Concrete(Host, if |a.value| >= 5 then a.value[5..] else "")
    else Concrete(match a.form case TPath => Path case TRemote => Remote case TEndpoint => Endpoint, a.value)
  }

  lemma ActionRendered(a: Action, remotes: Remotes)
    requires ValidAction(a, remotes)
    ensures Renders(Rendering(a), a) && ValidSelector(Rendering(a), Admit, false, remotes)
  {
    hide CanonicalPath, Variant;
    if a.kind.ComputeHost? {
      JoinSplit(a.value, ':');
      var parts := Split(a.value, ':');
      assert parts == ["host", parts[1]];
      assert a.value == "host" + ":" + parts[1] && a.value[5..] == parts[1];
      assert parts[1] != "" by { VariantExact(parts[1]); }
    }
  }

  lemma RenderedValid(t: Selector, a: Action, remotes: Remotes)
    requires Renders(t, a) && ValidSelector(t, Admit, false, remotes)
    requires a.form.TRemote? ==> remotes.extracted(a.value)
    ensures ValidAction(a, remotes)
  {
    if t.form == Host {
      HostParts(t.value);
      forall c | c in a.value ensures c in "host:" || c in t.value {
      }
      assert '{' !in "host:" && '}' !in "host:";
    }
  }

  // ----- what a selector covers -----

  function FormName(f: TargetForm): string {
    match f
    case TPath => "path"
    case TRemote => "remote"
    case TEndpoint => "endpoint"
  }

  function KindName(k: Kind): string {
    match k
    case CloudResource => "cloud-resource"
    case ComputeHost => "compute-host"
    case ServiceEndpoint => "service-endpoint"
    case FilesystemPath => "filesystem-path"
    case SendChannel => "send-channel"
    case Repository => "repository"
    case RemoteLocation => "remote-location"
  }

  /** A wide selector is `any-` and the name of the form or the kind it covers. */
  lemma AnyExact(w: Wide, a: Action)
    ensures Selects(Any(w), a) <==>
            Spelling(Any(w)) == "any-" + FormName(a.form) || Spelling(Any(w)) == "any-" + KindName(a.kind)
  {
    WideNames(w, FormName(a.form));
    WideNames(w, KindName(a.kind));
    NamesApart(a);
  }

  /** The name a wide selector carries. */
  function WideName(w: Wide): string {
    match w
    case AnyRemote => FormName(TRemote)
    case AnyEndpoint => FormName(TEndpoint)
    case AnySendChannel => KindName(SendChannel)
    case AnyCloudResource => KindName(CloudResource)
    case AnyRepository => KindName(Repository)
  }

  lemma WideNames(w: Wide, name: string)
    ensures Spelling(Any(w)) == "any-" + name <==> WideName(w) == name
  {
    assert Spelling(Any(w)) == "any-" + WideName(w);
    assert ("any-" + name)[4..] == name && ("any-" + WideName(w))[4..] == WideName(w);
  }

  lemma NamesApart(a: Action)
    ensures forall k, k' | KindName(k) == KindName(k') :: k == k'
    ensures forall f, f' | FormName(f) == FormName(f') :: f == f'
    ensures forall k, f :: KindName(k) != FormName(f)
  {
    assert KindName(SendChannel)[0] == 's' && KindName(ComputeHost)[0] == 'c';
    assert KindName(FilesystemPath)[0] == 'f' && KindName(RemoteLocation)[0] == 'r';
  }

  /** The labels of concrete selectors are the form names of the actions they render. */
  lemma LabelsExact(t: Selector, kind: Kind)
    requires t.Concrete?
    ensures t.form.Path? || t.form.Remote? || t.form.Endpoint? ==>
              Spelling(t) == FormName(Own(t, kind).form) + ":" + Own(t, kind).value
    ensures t.form.Host? ==> Spelling(t) == Own(t, kind).value
    ensures t.form.Repo? ==> Spelling(t) == "repo:" + t.value
    ensures t.form.Glob? ==> Spelling(t) == FormName(TPath) + "-glob:" + t.value
  {
  }

  ghost predicate Covered(s: Selector, a: Action) {
    match s
    case Any(w) =>
      Spelling(s) == "any-" + FormName(a.form) || Spelling(s) == "any-" + KindName(a.kind)
    case Concrete(form, v) =>
      match form
      case Path | Repo => a.form == TPath && (v == "/" || a.value == v || v + "/" <= a.value)
      case Glob => a.form == TPath && exists path :: PathMatches(Segments(v), path) && path <= Segments(a.value)
      case _ => Renders(s, a)
  }

  /** The matcher answers exactly on a row of the table, a valid action and a valid selector: any
      form or kind by name, a subtree by its text, a glob by its stars, a label by its rendering. */
  lemma MatchExact(s: Selector, subject: Subject, exclusion: bool, c: EffectClass, a: Action, remotes: Remotes, b: bool)
    ensures Match(s, subject, exclusion, c, a, remotes) == Ok(b) <==>
            && (c, a.kind, a.form) in ROWS && ValidAction(a, remotes) && ValidSelector(s, subject, exclusion, remotes)
            && (b <==> Covered(s, a))
  {
    TableExact(c, a.kind, a.form);
    if ValidAction(a, remotes) && ValidSelector(s, subject, exclusion, remotes) {
      SelectsExact(s, subject, exclusion, a, remotes);
    }
    hide Allows, ROWS, ValidAction, ValidSelector, Selects, Covered;
  }

  lemma SelectsExact(s: Selector, subject: Subject, exclusion: bool, a: Action, remotes: Remotes)
    requires ValidAction(a, remotes) && ValidSelector(s, subject, exclusion, remotes)
    ensures Selects(s, a) <==> Covered(s, a)
  {
    hide CanonicalPath;
    match s
    case Any(w) => AnyExact(w, a);
    case Concrete(form, v) =>
      if form.Path? || form.Repo? {
        if a.form.TPath? {
          CoversByText(v, a.value);
        }
      } else if form.Glob? {
        GlobExact(Segments(v), Segments(a.value));
      } else {
        LabelCovers(s, a, remotes);
      }
  }

  lemma LabelCovers(s: Selector, a: Action, remotes: Remotes)
    requires s.Concrete? && (s.form.Remote? || s.form.Endpoint? || s.form.Host?) && ValidAction(a, remotes)
    requires s.form.Endpoint? ==> Split(s.value, ':')[0] != "host"
    ensures Selects(s, a) <==> Renders(s, a)
  {
  }
}
