/** The grammar of concrete clause selectors and the match of one selector against one
    extracted action target. */
module SelectorMatch {
  import opened Prelude
  import opened Text
  import opened PosixPath

  datatype Subject = Admit | Veto | Rate | Window | Route | Precondition
  datatype Form = Path | Repo | Glob | Remote | Endpoint | Host
  datatype Wide = AnyRemote | AnyEndpoint | AnySendChannel | AnyCloudResource | AnyRepository

  /** `form:value`, or one of the five any-selectors. */
  datatype Selector = Concrete(form: Form, value: string) | Any(wide: Wide)

  datatype EffectClass =
    | CloudResourceEffect | ComputeJob | CoordinationMessage | ExchangeRecordCreate | ExternalSend | GitCommit
    | GitPush | LocalFileWrite | PackageUpload | ProviderCall | Read | RepoVisibilityChange | SharedStorageWrite
  datatype Kind =
    | CloudResource | ComputeHost | ServiceEndpoint | FilesystemPath | SendChannel | Repository | RemoteLocation
  datatype TargetForm = TPath | TRemote | TEndpoint

  /** An extracted action target. */
  datatype Action = Action(kind: Kind, form: TargetForm, value: string)

  /** The two remote grammars, which use URL parsing: the selector's and the journal's. */
  datatype Remotes = Remotes(selector: string -> bool, extracted: string -> bool)

  /** The fixed fifteen-row table. */
  predicate Allows(c: EffectClass, kind: Kind, form: TargetForm) {
    match c
    case CloudResourceEffect => kind.CloudResource? && !form.TPath?
    case ComputeJob => kind.ComputeHost? && form.TEndpoint?
    case CoordinationMessage => kind.ServiceEndpoint? && form.TEndpoint?
    case ExchangeRecordCreate => kind.FilesystemPath? && form.TPath?
    case ExternalSend => kind.SendChannel? && !form.TPath?
    case GitCommit => kind.Repository? && form.TPath?
    case GitPush => (kind.RemoteLocation? || kind.Repository?) && form.TRemote?
    case LocalFileWrite => kind.FilesystemPath? && form.TPath?
    case PackageUpload => kind.ServiceEndpoint? && form.TEndpoint?
    case ProviderCall => kind.ServiceEndpoint? && form.TEndpoint?
    case Read => kind.FilesystemPath? && form.TPath?
    case RepoVisibilityChange => kind.Repository? && form.TRemote?
    case SharedStorageWrite => (kind.FilesystemPath? && form.TPath?) || (kind.RemoteLocation? && form.TRemote?)
  }

  // ----- paths -----

  /** `_segments`; slicing the empty text yields the empty text. */
  function Segments(path: string): seq<string> {
    if path == "/" then [] else Split(if path == "" then "" else path[1..], '/')
  }

  /** `_path_covers`. */
  predicate PathCovers(selector: string, target: string) {
    Segments(selector) <= Segments(target)
  }

  predicate PlainPart(part: string, glob: bool) {
    && ('*' in part ==> glob && part == "*")
    && (glob ==> '?' !in part && '[' !in part && ']' !in part)
  }

  /** `_path`. */
  predicate CanonicalPath(value: string, glob: bool) {
    && "/" <= value
    && (value != "/" ==> value[|value| - 1] != '/')
    && (value != "/" ==> forall p | p in Split(value[1..], '/') :: p != "" && p != "." && p != "..")
    && (forall c | c in value :: c >= ' ')
    && forall p | p in Segments(value) :: PlainPart(p, glob)
  }

  /** `[a-z][a-z0-9_.-]{0,63}` */
  predicate Variant(s: string) {
    1 <= |s| <= 64 && 'a' <= s[0] <= 'z' &&
    forall c | c in s :: 'a' <= c <= 'z' || '0' <= c <= '9' || c in "_.-"
  }

  /** `service:resource`; the resource holds no further colon because it is a variant. */
  predicate ServiceResource(value: string) {
    var parts := Split(value, ':');
    |parts| == 2 && Variant(parts[0]) && Variant(parts[1])
  }

  predicate NoPlaceholder(value: string) {
    value != "" && '{' !in value && '}' !in value
  }

  /** `validate_clause_target_v2` on the concrete and any-selectors. */
  predicate ValidSelector(s: Selector, subject: Subject, exclusion: bool, remotes: Remotes) {
    match s
    case Any(_) => !exclusion && subject.Veto?
    case Concrete(form, value) =>
      NoPlaceholder(value) &&
      match form
      case Glob => exclusion && !subject.Veto? && CanonicalPath(value, true)
      case Path => CanonicalPath(value, false)
      case Repo => CanonicalPath(value, false)
      case Remote => remotes.selector(value)
      case Endpoint => ServiceResource(value) && Split(value, ':')[0] != "host"
      case Host => Variant(value)
  }

  /** What the target-reference parser, its rendering and the admit grammar accept together. */
  predicate ValidAction(a: Action, remotes: Remotes) {
    NoPlaceholder(a.value) &&
    match a.form
    case TPath => !a.kind.ComputeHost? && CanonicalPath(a.value, false)
    case TRemote => !a.kind.ComputeHost? && remotes.extracted(a.value) && remotes.selector(a.value)
    case TEndpoint => ServiceResource(a.value) && (a.kind.ComputeHost? <==> Split(a.value, ':')[0] == "host")
  }

  /** The comparison loop of the glob case. */
  predicate GlobCovers(pattern: seq<string>, target: seq<string>) {
    |target| >= |pattern| && forall i | 0 <= i < |pattern| :: pattern[i] == "*" || pattern[i] == target[i]
  }

  /** The comparison at the end of the match, after all validation. */
  predicate Selects(s: Selector, a: Action) {
    match s
    case Any(w) => (
      match w
      case AnyRemote => a.form.TRemote?
      case AnyEndpoint => a.form.TEndpoint?
      case AnySendChannel => a.kind.SendChannel?
      case AnyCloudResource => a.kind.CloudResource?
      case AnyRepository => a.kind.Repository?)
    case Concrete(form, value) =>
      match form
      case Path => a.form.TPath? && PathCovers(value, a.value)
      case Repo => a.form.TPath? && PathCovers(value, a.value)
      case Glob => a.form.TPath? && GlobCovers(Segments(value), Segments(a.value))
      case Remote => a.form.TRemote? && a.value == value
      case Endpoint => a.form.TEndpoint? && a.value == value
      case Host => a.kind.ComputeHost? && a.value == "host:" + value
  }

  /** `match_clause_selector_v2`, for the exact selected table. */
  function Match(s: Selector, subject: Subject, exclusion: bool, c: EffectClass, a: Action,
      remotes: Remotes): Result<bool> {
    if !Allows(c, a.kind, a.form) || !ValidAction(a, remotes) || !ValidSelector(s, subject, exclusion, remotes) then Err
    else Ok(Selects(s, a))
  }

  // ----- four path comparisons that agree -----

  lemma SplitTail(s: string, sep: char)
    requires s != "" && s[0] == sep
    ensures Split(s, sep) == [""] + Split(s[1..], sep)
  {
  }

  lemma EmptyFirst(s: string, sep: char)
    requires s != ""
    ensures s[0] == sep ==> "" in Split(s, sep)
  {
    if s[0] == sep {
      SplitTail(s, sep);
      assert Split(s, sep)[0] == "";
    }
  }

  /** On a canonical path `PurePosixPath` keeps every component. */
  lemma CanonicalParse(value: string, glob: bool)
    requires CanonicalPath(value, glob)
    ensures Parse(value) == Pure("/", Segments(value))
  {
    SplitTail(value, '/');
    var tail := Split(value[1..], '/');
    assert ([""] + tail)[1..] == tail;
    if value == "/" {
      assert value[1..] == "" && tail == [""];
      assert Keep([""]) == [] by { assert [""][1..] == []; }
    } else {
      KeepAll(tail);
      EmptyFirst(value[1..], '/');
    }
  }

  lemma SplitCons(c: char, s: string, sep: char)
    ensures var rest := Split(s, sep);
            Split([c] + s, sep) == if c == sep then [""] + rest else [[c] + rest[0]] + rest[1..]
  {
    assert ([c] + s)[1..] == s;
  }

  lemma {:induction false} SplitPrefix(a: string, b: string, sep: char)
    ensures Split(a + [sep] + b, sep) == Split(a, sep) + Split(b, sep)
  {
    if a == "" {
      SplitCons(sep, b, sep);
      assert a + [sep] + b == [sep] + b;
    } else {
      SplitPrefix(a[1..], b, sep);
      SplitStep(a, b, sep);
    }
  }

  lemma SplitStep(a: string, b: string, sep: char)
    requires a != "" && Split(a[1..] + [sep] + b, sep) == Split(a[1..], sep) + Split(b, sep)
    ensures Split(a + [sep] + b, sep) == Split(a, sep) + Split(b, sep)
  {
    hide Split;
    var rest, tail := Split(a[1..], sep), Split(b, sep);
    SplitCons(a[0], a[1..] + [sep] + b, sep);
    SplitCons(a[0], a[1..], sep);
    assert a == [a[0]] + a[1..];
    assert a + [sep] + b == [a[0]] + (a[1..] + [sep] + b);
    assert (rest + tail)[1..] == rest[1..] + tail;
    if a[0] == sep {
      assert [""] + (rest + tail) == ([""] + rest) + tail;
    } else {
      assert [[a[0]] + rest[0]] + (rest[1..] + tail) == ([[a[0]] + rest[0]] + rest[1..]) + tail;
    }
  }

  lemma {:induction false} JoinAppend(p: seq<string>, q: seq<string>, sep: char)
    requires p != [] && q != []
    ensures Join(p + q, sep) == Join(p, sep) + [sep] + Join(q, sep)
  {
    if |p| == 1 {
      assert (p + q)[1..] == q;
    } else {
      assert (p + q)[1..] == p[1..] + q;
      JoinAppend(p[1..], q, sep);
      assert p[0] + [sep] + (Join(p[1..], sep) + [sep] + Join(q, sep)) ==
             p[0] + [sep] + Join(p[1..], sep) + [sep] + Join(q, sep);
    }
  }

  /** A component prefix is the text itself, or the text up to a separator. */
  lemma ComponentPrefix(a: string, b: string, sep: char)
    ensures Split(a, sep) <= Split(b, sep) <==> a == b || a + [sep] <= b
  {
    if a + [sep] <= b {
      var rest := b[|a| + 1..];
      assert b == a + [sep] + rest;
      SplitPrefix(a, rest, sep);
    }
    if Split(a, sep) <= Split(b, sep) && a != b {
      SplitInjective(a, b, sep);
      var p := Split(a, sep);
      var q := Split(b, sep)[|p|..];
      assert Split(b, sep) == p + q;
      JoinAppend(p, q, sep);
      JoinSplit(a, sep);
      JoinSplit(b, sep);
    }
  }

  /** `_effect_targets_overlap_v2` on two path targets. */
  predicate TextOverlap(left: string, right: string) {
    left == right || left == "/" || right == "/" || right + "/" <= left || left + "/" <= right
  }

  lemma CoversByText(a: string, b: string)
    requires CanonicalPath(a, false) && CanonicalPath(b, false)
    ensures PathCovers(a, b) <==> a == "/" || a == b || a + "/" <= b
  {
    assert a == "/" + a[1..] && b == "/" + b[1..];
    if a != "/" && b != "/" {
      ComponentPrefix(a[1..], b[1..], '/');
      assert (a + "/")[1..] == a[1..] + "/";
      assert a + "/" == "/" + (a[1..] + "/");
      if a[1..] + "/" <= b[1..] {
        assert "/" + (a[1..] + "/") <= "/" + b[1..];
      }
      if a + "/" <= b {
        assert (a + "/")[1..] <= b[1..];
      }
    }
  }

  /** The four comparisons of the repository agree on canonical paths: components, `PurePosixPath`
      parts, ancestors, and text with a separator. */
  lemma ComparisonsAgree(a: string, b: string)
    requires CanonicalPath(a, false) && CanonicalPath(b, false)
    ensures PathCovers(a, b) <==> PosixPath.Covers(Parse(a), Parse(b))
    ensures TextOverlap(a, b) <==> PathCovers(a, b) || PathCovers(b, a)
  {
    CanonicalParse(a, false);
    CanonicalParse(b, false);
    CoversByText(a, b);
    CoversByText(b, a);
  }
}
