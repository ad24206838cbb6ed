/** Counting what an audit tool reports: the loops over its parsed output, and what the counts
    are of. */
module ProfileCounts {
  import opened Prelude
  import opened JsonValue

  // ----- what is counted -----

  /** The member of an object; null when there is none. */
  function At(j: Json, key: string): Json {
    if j.JObj? then Get(j.fields, key) else JNull
  }

  /** The entries of the array under a key; none when the member is missing. */
  function Entries(j: Json, key: string): seq<Json> {
    if At(j, key).JArr? then At(j, key).items else []
  }

  predicate Listed(j: Json, key: string) {
    j.JObj? && (key in Keys(j.fields) ==> At(j, key).JArr?)
  }

  /** The entries of all arrays under a key, one owner after the other. */
  function AllEntries(owners: seq<Json>, key: string): seq<Json> {
    if owners == [] then [] else Entries(owners[0], key) + AllEntries(owners[1..], key)
  }

  lemma {:induction false} AllEntriesExact(owners: seq<Json>, key: string, j: Json)
    ensures j in AllEntries(owners, key) <==> exists owner | owner in owners :: j in Entries(owner, key)
  {
    if owners != [] {
      AllEntriesExact(owners[1..], key, j);
      assert owners == [owners[0]] + owners[1..];
    }
  }

  predicate Failed(j: Json) {
    At(j, "Status") == JStr("FAIL")
  }

  function Failures(js: seq<Json>): seq<Json> {
    if js == [] then [] else (if Failed(js[0]) then [js[0]] else []) + Failures(js[1..])
  }

  predicate NonEmpty(j: Json) {
    j.JStr? && |j.s| >= 1
  }

  ghost predicate TrivyShaped(document: Json) {
    && document.JObj? && At(document, "SchemaVersion") == JNum(2.0) && At(document, "Results").JArr?
    && forall r | r in Entries(document, "Results") :: TrivyResultShaped(r)
  }

  ghost predicate TrivyResultShaped(r: Json) {
    && r.JObj? && NonEmpty(At(r, "Target")) && NonEmpty(At(r, "Type")) && At(r, "Class").JStr?
    && Listed(r, "Misconfigurations") && Listed(r, "Secrets")
    && (forall j | j in Entries(r, "Misconfigurations") ::
          At(j, "Status") in [JStr("EXCEPTION"), JStr("FAIL"), JStr("PASS")])
    && forall j | j in Entries(r, "Secrets") :: j.JObj?
  }

  /** The failed misconfigurations, then the secrets, of all results. */
  function TrivyFindings(document: Json): seq<Json> {
    var results := Entries(document, "Results");
    Failures(AllEntries(results, "Misconfigurations")) + AllEntries(results, "Secrets")
  }

  ghost predicate OsvShaped(document: Json) {
    && document.JObj? && At(document, "results").JArr?
    && forall r | r in Entries(document, "results") :: OsvResultShaped(r)
  }

  ghost predicate OsvResultShaped(r: Json) {
    && NonEmpty(At(At(r, "source"), "path")) && At(At(r, "source"), "type") == JStr("lockfile")
    && At(r, "packages").JArr? && forall p | p in Entries(r, "packages") :: OsvPackageShaped(p)
  }

  ghost predicate OsvPackageShaped(p: Json) {
    && (forall key | key in ["ecosystem", "name", "version"] :: NonEmpty(At(At(p, "package"), key)))
    && Listed(p, "vulnerabilities") && forall v | v in Entries(p, "vulnerabilities") :: NonEmpty(At(v, "id"))
  }

  /** The vulnerabilities of all packages of all results. */
  function OsvFindings(document: Json): seq<Json> {
    AllEntries(AllEntries(Entries(document, "results"), "packages"), "vulnerabilities")
  }

  function OsvPaths(document: Json): set<string> {
    set r | r in Entries(document, "results") && At(At(r, "source"), "path").JStr? :: At(At(r, "source"), "path").s
  }

  ghost predicate SemgrepShaped(document: Json) {
    && At(document, "results").JArr? && At(document, "errors").JArr? && At(At(document, "paths"), "scanned").JArr?
    && (forall j | j in Entries(document, "results") :: j.JObj?)
    && (forall j | j in Entries(document, "errors") :: j.JObj?)
    && forall j | j in Entries(At(document, "paths"), "scanned") :: NonEmpty(j)
  }

  // ----- counting -----

  datatype Parser = Osv | Semgrep | Trivy

  /** A count, the ValueError of a malformed document, or the TypeError of an array or object
      looked up in a set of strings. */
  datatype Tally = Count(n: nat) | Malformed | Unhashable

  function Plus(a: Tally, b: Tally): Tally {
    if !a.Count? then a else if !b.Count? then b else Count(a.n + b.n)
  }

  /** The first entry that is not a count decides. */
  function Total(tally: Json -> Tally, js: seq<Json>): Tally {
    if js == [] then Count(0) else Plus(tally(js[0]), Total(tally, js[1..]))
  }

  lemma PlusAssociative(a: Tally, b: Tally, c: Tally)
    ensures Plus(Plus(a, b), c) == Plus(a, Plus(b, c))
  {
  }

  lemma {:induction false} TotalAppend(tally: Json -> Tally, js: seq<Json>, ks: seq<Json>)
    ensures Total(tally, js + ks) == Plus(Total(tally, js), Total(tally, ks))
  {
    if js == [] {
      assert js + ks == ks;
    } else {
      hide Plus;
      var all := js + ks;
      assert all[0] == js[0] && all[1..] == js[1..] + ks;
      TotalAppend(tally, js[1..], ks);
      PlusAssociative(tally(js[0]), Total(tally, js[1..]), Total(tally, ks));
    }
  }

  lemma TotalOne(tally: Json -> Tally, j: Json)
    ensures Total(tally, [j]) == tally(j)
  {
    assert [j][1..] == [];
  }

  lemma TotalStep(tally: Json -> Tally, js: seq<Json>, k: nat)
    requires k < |js|
    ensures Total(tally, js[..k + 1]) == Plus(Total(tally, js[..k]), tally(js[k]))
    ensures Total(tally, js) == Plus(Total(tally, js[..k + 1]), Total(tally, js[k + 1..]))
  {
    hide Total, Plus;
    var head, tail := js[..k + 1], js[k + 1..];
    assert head == js[..k] + [js[k]];
    assert js == head + tail;
    TotalOne(tally, js[k]);
    TotalAppend(tally, js[..k], [js[k]]);
    TotalAppend(tally, head, tail);
  }

  function GetOrEmpty(fields: seq<Field>, key: string): Json {
    if key in Keys(fields) then Get(fields, key) else JArr([])
  }

  predicate Text(j: Json) { j.JStr? && j.s != "" }

  // ----- Trivy -----

  function Misconfiguration(j: Json): Tally {
    if !j.JObj? then Malformed
    else
      var status := Get(j.fields, "Status");
      if status.JArr? || status.JObj? then Unhashable
      else if status == JStr("FAIL") then Count(1)
      else if status == JStr("PASS") || status == JStr("EXCEPTION") then Count(0)
      else Malformed
  }

  function Secret(j: Json): Tally { if j.JObj? then Count(1) else Malformed }

  /** The failed misconfigurations and the secrets of one result. */
  function TrivyResult(j: Json): Tally {
    if !j.JObj? then Malformed
    else
      var target, kind, type_ := Get(j.fields, "Target"), Get(j.fields, "Class"), Get(j.fields, "Type");
      var wrong, secrets := GetOrEmpty(j.fields, "Misconfigurations"), GetOrEmpty(j.fields, "Secrets");
      if !Text(target) || !kind.JStr? || !Text(type_) || !wrong.JArr? || !secrets.JArr? then Malformed
      else Plus(Total(Misconfiguration, wrong.items), Total(Secret, secrets.items))
  }

  method CountAll(tally: Json -> Tally, js: seq<Json>) returns (total: Tally)
    ensures total == Total(tally, js)
  {
    total := Count(0);
    for k := 0 to |js|
      invariant total.Count? && total == Total(tally, js[..k])
    {
      TotalStep(tally, js, k);
      var one := tally(js[k]);
      if !one.Count? {
        return one;
      }
      total := Count(total.n + one.n);
    }
    assert js[..|js|] == js;
  }

  /** Findings and scanned targets, or how the count failed. */
  datatype Counts = Counts(findings: nat, scanned: nat) | Invalid | TypeFault

  function Tallied(t: Tally, scanned: nat): Counts {
    match t
    case Count(n) => Counts(n, scanned)
    case Malformed => Invalid
    case Unhashable => TypeFault
  }

  function TrivySpec(document: Json): Counts {
    if !document.JObj? then Invalid
    else
      var version, results := Get(document.fields, "SchemaVersion"), Get(document.fields, "Results");
      if version != JNum(2.0) || !results.JArr? then Invalid
      else Tallied(Total(TrivyResult, results.items), |results.items|)
  }

  method TallyTrivy(j: Json) returns (tally: Tally)
    ensures tally == TrivyResult(j)
  {
    hide Total;
    if !j.JObj? {
      return Malformed;
    }
    var target, kind, type_ := Get(j.fields, "Target"), Get(j.fields, "Class"), Get(j.fields, "Type");
    var wrong, secrets := GetOrEmpty(j.fields, "Misconfigurations"), GetOrEmpty(j.fields, "Secrets");
    if !Text(target) || !kind.JStr? || !Text(type_) || !wrong.JArr? || !secrets.JArr? {
      return Malformed;
    }
    tally := CountAll(Misconfiguration, wrong.items);
    if tally.Count? {
      var more := CountAll(Secret, secrets.items);
      tally := Plus(tally, more);
    }
  }

  /** `_trivy_counts`: nested counting loops with early failure. A document of the right shape has
      as many findings as failed misconfigurations and secrets, and every result is a target. */
  method TrivyCounts(document: Json) returns (counts: Counts)
    ensures counts == TrivySpec(document)
    ensures counts.Counts? <==> TrivyShaped(document)
    ensures counts.Counts? ==>
            counts.findings == |TrivyFindings(document)| && counts.scanned == |Entries(document, "Results")|
  {
    hide TrivyResult, Total, TrivyShaped, TrivyFindings, Entries;
    TrivyExact(document);
    if !document.JObj? {
      return Invalid;
    }
    var version, results := Get(document.fields, "SchemaVersion"), Get(document.fields, "Results");
    if version != JNum(2.0) || !results.JArr? {
      return Invalid;
    }
    var js := results.items;
    var findings: nat, scanned: nat := 0, 0;
    NoneCounted(TrivyResult);
    assert js[..0] == [];
    while scanned < |js|
      invariant scanned <= |js| && Total(TrivyResult, js[..scanned]) == Count(findings)
    {
      TotalStep(TrivyResult, js, scanned);
      var one := TallyTrivy(js[scanned]);
      scanned := scanned + 1;
      if !one.Count? {
        return if one.Malformed? then Invalid else TypeFault;
      }
      findings := findings + one.n;
    }
    assert js[..|js|] == js;
    return Counts(findings, scanned);
  }

  lemma NoneCounted(tally: Json -> Tally)
    ensures Total(tally, []) == Count(0)
  {
  }

  // ----- OSV -----

  function Vulnerability(j: Json): Tally {
    if j.JObj? && Text(Get(j.fields, "id")) then Count(1) else Malformed
  }

  function Package(j: Json): Tally {
    if !j.JObj? then Malformed
    else
      var package, known := Get(j.fields, "package"), GetOrEmpty(j.fields, "vulnerabilities");
      if !package.JObj? || !Text(Get(package.fields, "name")) || !Text(Get(package.fields, "version"))
         || !Text(Get(package.fields, "ecosystem")) || !known.JArr?
      then Malformed
      else Total(Vulnerability, known.items)
  }

  /** The source path of one result, when it is a lockfile with a path. */
  function SourcePath(j: Json): Option<string> {
    if !j.JObj? then None
    else
      var source := Get(j.fields, "source");
      if !source.JObj? then None
      else
        var path := Get(source.fields, "path");
        if Text(path) && Get(source.fields, "type") == JStr("lockfile") then Some(path.s) else None
  }

  lemma ObjectSource(j: Json)
    requires SourcePath(j).Some?
    ensures j.JObj?
  {
  }

  function OsvResult(j: Json): Tally {
    if SourcePath(j).None? then Malformed
    else
      var packages := Get(j.fields, "packages");
      if packages.JArr? then Total(Package, packages.items) else Malformed
  }

  function Sources(js: seq<Json>): set<string> {
    set j | j in js && SourcePath(j).Some? :: SourcePath(j).value
  }

  function OsvSpec(document: Json): Counts {
    if !document.JObj? then Invalid
    else
      var results := Get(document.fields, "results");
      if !results.JArr? then Invalid
      else Tallied(Total(OsvResult, results.items), |Sources(results.items)|)
  }

  /** `_osv_counts`: the scanned sources are collected in a set. A document of the right shape has
      as many findings as vulnerabilities and as many targets as distinct paths. */
  method OsvCounts(document: Json) returns (counts: Counts)
    ensures counts == OsvSpec(document)
    ensures counts.Counts? <==> OsvShaped(document)
    ensures counts.Counts? ==>
            counts.findings == |OsvFindings(document)| && counts.scanned == |OsvPaths(document)|
  {
    hide Total, Get, Package, SourcePath, OsvShaped, OsvFindings, OsvPaths;
    OsvExact(document);
    if !document.JObj? {
      return Invalid;
    }
    var results := Get(document.fields, "results");
    if !results.JArr? {
      return Invalid;
    }
    var js := results.items;
    var findings: nat := 0;
    var scanned: set<string> := {};
    NoneCounted(OsvResult);
    assert js[..0] == [];
    for k := 0 to |js|
      invariant Total(OsvResult, js[..k]) == Count(findings) && scanned == Sources(js[..k])
    {
      TotalStep(OsvResult, js, k);
      var path := SourcePath(js[k]);
      if path.None? {
        return Invalid;
      }
      ObjectSource(js[k]);
      var packages := Get(js[k].fields, "packages");
      if !packages.JArr? {
        return Invalid;
      }
      assert js[..k + 1] == js[..k] + [js[k]];
      scanned := scanned + {path.value};
      var one := CountAll(Package, packages.items);
      if !one.Count? {
        return if one.Malformed? then Invalid else TypeFault;
      }
      findings := findings + one.n;
    }
    assert js[..|js|] == js;
    return Counts(findings, |scanned|);
  }

  // ----- Semgrep -----

  function SemgrepSpec(document: Json): (Counts, bool) {
    if !document.JObj? then (Invalid, false)
    else
      var results, errors := Get(document.fields, "results"), Get(document.fields, "errors");
      var paths := Get(document.fields, "paths");
      if !paths.JObj? then (Invalid, false)
      else
        var scanned := Get(paths.fields, "scanned");
        if !results.JArr? || !errors.JArr? || !scanned.JArr? then (Invalid, false)
        else if exists j | j in results.items + errors.items :: !j.JObj? then (Invalid, false)
        else if exists j | j in scanned.items :: !Text(j) then (Invalid, false)
        else (Counts(|results.items|, |scanned.items|), errors.items != [])
  }

  // ----- totality -----

  /** A total is a count exactly when every entry is, and fails like its first failing entry. */
  lemma {:induction false} TotalExact(tally: Json -> Tally, js: seq<Json>)
    ensures Total(tally, js).Count? <==> forall i | 0 <= i < |js| :: tally(js[i]).Count?
    ensures !Total(tally, js).Count? ==>
            exists i :: 0 <= i < |js| && FirstFailure(tally, js, i) && Total(tally, js) == tally(js[i])
  {
    if js != [] {
      TotalExact(tally, js[1..]);
      if !tally(js[0]).Count? {
        assert FirstFailure(tally, js, 0);
      } else if !Total(tally, js[1..]).Count? {
        var i :| 0 <= i < |js[1..]| && FirstFailure(tally, js[1..], i) && Total(tally, js[1..]) == tally(js[1..][i]);
        assert js[i + 1] == js[1..][i];
        forall k | 0 <= k < i + 1 ensures tally(js[k]).Count? {
          assert k > 0 ==> js[k] == js[1..][k - 1];
        }
        assert FirstFailure(tally, js, i + 1);
      } else {
        forall k | 0 <= k < |js| ensures tally(js[k]).Count? {
          assert k > 0 ==> js[k] == js[1..][k - 1];
        }
      }
    }
  }

  ghost predicate FirstFailure(tally: Json -> Tally, js: seq<Json>, i: nat)
    requires i < |js|
  {
    !tally(js[i]).Count? && forall k | 0 <= k < i :: tally(js[k]).Count?
  }

  /** A misconfiguration whose status is an array or an object. */
  predicate OddStatus(j: Json) {
    j.JObj? && (Get(j.fields, "Status").JArr? || Get(j.fields, "Status").JObj?)
  }

  /** Result i is the first failing one, and fails at a misconfiguration with an odd status. */
  ghost predicate OddResult(js: seq<Json>, i: nat)
    requires i < |js|
  {
    FirstFailure(TrivyResult, js, i) && TrivyResult(js[i]).Unhashable?
  }

  lemma NeverUnhashable(tally: Json -> Tally, js: seq<Json>)
    requires forall j :: !tally(j).Unhashable?
    ensures !Total(tally, js).Unhashable?
  {
    TotalExact(tally, js);
  }

  lemma OddResultExact(j: Json)
    ensures TrivyResult(j).Unhashable? <==>
            && j.JObj?
            && Text(Get(j.fields, "Target")) && Get(j.fields, "Class").JStr? && Text(Get(j.fields, "Type"))
            && GetOrEmpty(j.fields, "Misconfigurations").JArr? && GetOrEmpty(j.fields, "Secrets").JArr?
            && var wrong := GetOrEmpty(j.fields, "Misconfigurations").items;
               exists k :: 0 <= k < |wrong| && FirstFailure(Misconfiguration, wrong, k) && OddStatus(wrong[k])
  {
    hide Get, Keys;
    if j.JObj? && GetOrEmpty(j.fields, "Misconfigurations").JArr? && GetOrEmpty(j.fields, "Secrets").JArr? {
      var wrong := GetOrEmpty(j.fields, "Misconfigurations").items;
      NeverUnhashable(Secret, GetOrEmpty(j.fields, "Secrets").items);
      FirstDecides(Misconfiguration, wrong);
      TotalExact(Misconfiguration, wrong);
    }
  }

  lemma {:induction false} FirstDecides(tally: Json -> Tally, js: seq<Json>)
    ensures forall i | 0 <= i < |js| && FirstFailure(tally, js, i) :: Total(tally, js) == tally(js[i])
  {
    TotalExact(tally, js);
    forall i | 0 <= i < |js| && FirstFailure(tally, js, i) ensures Total(tally, js) == tally(js[i]) {
      var k :| 0 <= k < |js| && FirstFailure(tally, js, k) && Total(tally, js) == tally(js[k]);
      assert k == i;
    }
  }

  lemma OsvNeverFaults(document: Json)
    ensures !OsvSpec(document).TypeFault?
  {
    hide Get, Total;
    forall j ensures !Package(j).Unhashable? {
      if j.JObj? && GetOrEmpty(j.fields, "vulnerabilities").JArr? {
        NeverUnhashable(Vulnerability, GetOrEmpty(j.fields, "vulnerabilities").items);
      }
    }
    forall j ensures !OsvResult(j).Unhashable? {
      if SourcePath(j).Some? && Get(j.fields, "packages").JArr? {
        NeverUnhashable(Package, Get(j.fields, "packages").items);
      }
    }
    if document.JObj? && Get(document.fields, "results").JArr? {
      NeverUnhashable(OsvResult, Get(document.fields, "results").items);
    }
  }

  lemma FirstOdd(js: seq<Json>)
    ensures Total(TrivyResult, js).Unhashable? <==> exists i :: 0 <= i < |js| && OddResult(js, i)
  {
    hide TrivyResult, Total;
    TotalExact(TrivyResult, js);
    FirstDecides(TrivyResult, js);
    if Total(TrivyResult, js).Unhashable? {
      var i :| 0 <= i < |js| && FirstFailure(TrivyResult, js, i) && Total(TrivyResult, js) == TrivyResult(js[i]);
      assert OddResult(js, i);
    }
  }

  lemma TrivyFaultExact(document: Json)
    ensures TrivySpec(document).TypeFault? <==>
            && document.JObj? && Get(document.fields, "SchemaVersion") == JNum(2.0)
            && Get(document.fields, "Results").JArr?
            && var js := Get(document.fields, "Results").items;
               exists i :: 0 <= i < |js| && OddResult(js, i)
  {
    hide Get, Total, OddResult;
    if document.JObj? && Get(document.fields, "Results").JArr? {
      FirstOdd(Get(document.fields, "Results").items);
    }
  }

  // ----- what the counts are of -----

  lemma {:induction false} AllEntriesAppend(a: seq<Json>, b: seq<Json>, key: string)
    ensures AllEntries(a + b, key) == AllEntries(a, key) + AllEntries(b, key)
  {
    if a == [] {
      assert a + b == b;
    } else {
      AllEntriesAppend(a[1..], b, key);
      assert (a + b)[1..] == a[1..] + b;
    }
  }

  lemma {:induction false} FailuresAppend(a: seq<Json>, b: seq<Json>)
    ensures Failures(a + b) == Failures(a) + Failures(b)
  {
    if a == [] {
      assert a + b == b;
    } else {
      FailuresAppend(a[1..], b);
      assert (a + b)[1..] == a[1..] + b;
    }
  }

  lemma {:induction false} WrongCounted(js: seq<Json>)
    requires Total(Misconfiguration, js).Count?
    ensures Total(Misconfiguration, js).n == |Failures(js)|
  {
    if js != [] {
      WrongCounted(js[1..]);
    }
  }

  lemma {:induction false} OnePerEntry(tally: Json -> Tally, js: seq<Json>)
    requires Total(tally, js).Count? && forall j :: tally(j).Count? ==> tally(j).n == 1
    ensures Total(tally, js).n == |js|
  {
    if js != [] {
      OnePerEntry(tally, js[1..]);
    }
  }

  lemma TrivyResultCounted(j: Json)
    requires TrivyResult(j).Count?
    ensures TrivyResult(j).n == |Failures(Entries(j, "Misconfigurations"))| + |Entries(j, "Secrets")|
  {
    hide Get, Keys, Total;
    WrongCounted(GetOrEmpty(j.fields, "Misconfigurations").items);
    OnePerEntry(Secret, GetOrEmpty(j.fields, "Secrets").items);
    MissingEntries(j, "Misconfigurations");
    MissingEntries(j, "Secrets");
  }

  lemma MissingEntries(j: Json, key: string)
    requires j.JObj?
    ensures GetOrEmpty(j.fields, key).JArr? <==> Listed(j, key)
    ensures Listed(j, key) ==> Entries(j, key) == GetOrEmpty(j.fields, key).items
  {
    if key !in Keys(j.fields) {
      GetMissing(j.fields, key);
    }
  }

  lemma {:induction false} TrivyCounted(js: seq<Json>)
    requires Total(TrivyResult, js).Count?
    ensures Total(TrivyResult, js).n ==
            |Failures(AllEntries(js, "Misconfigurations"))| + |AllEntries(js, "Secrets")|
  {
    hide TrivyResult;
    if js != [] {
      TrivyCounted(js[1..]);
      TrivyResultCounted(js[0]);
      FailuresAppend(Entries(js[0], "Misconfigurations"), AllEntries(js[1..], "Misconfigurations"));
    }
  }

  lemma TotalShaped(tally: Json -> Tally, js: seq<Json>)
    ensures Total(tally, js).Count? <==> forall j | j in js :: tally(j).Count?
  {
    TotalExact(tally, js);
    hide Total;
    if forall i | 0 <= i < |js| :: tally(js[i]).Count? {
      forall j | j in js ensures tally(j).Count? {
        var i :| 0 <= i < |js| && js[i] == j;
      }
    }
  }

  lemma MisconfigurationShaped(j: Json)
    ensures Misconfiguration(j).Count? <==> At(j, "Status") in [JStr("EXCEPTION"), JStr("FAIL"), JStr("PASS")]
  {
    hide Get;
  }

  lemma TrivyResultExact(j: Json)
    ensures TrivyResult(j).Count? <==> TrivyResultShaped(j)
  {
    hide Get, Keys, Total, Misconfiguration, GetOrEmpty;
    if j.JObj? {
      MissingEntries(j, "Misconfigurations");
      MissingEntries(j, "Secrets");
      if Listed(j, "Misconfigurations") && Listed(j, "Secrets") {
        hide Listed;
        TotalShaped(Misconfiguration, Entries(j, "Misconfigurations"));
        TotalShaped(Secret, Entries(j, "Secrets"));
        forall k
          ensures Misconfiguration(k).Count? <==>
                  At(k, "Status") in [JStr("EXCEPTION"), JStr("FAIL"), JStr("PASS")]
        {
          MisconfigurationShaped(k);
        }
      }
    }
  }

  /** The counts of a Trivy document, exactly: it is counted when it has the right shape, and then
      the findings are the failed misconfigurations and the secrets, over all its results. */
  lemma TrivyExact(document: Json)
    ensures TrivySpec(document).Counts? <==> TrivyShaped(document)
    ensures TrivyShaped(document) ==>
              TrivySpec(document) == Counts(|TrivyFindings(document)|, |Entries(document, "Results")|)
  {
    hide Get, Total, TrivyResult, TrivyResultShaped;
    if document.JObj? && At(document, "Results").JArr? {
      var js := Entries(document, "Results");
      TotalShaped(TrivyResult, js);
      forall j ensures TrivyResult(j).Count? <==> TrivyResultShaped(j) {
        TrivyResultExact(j);
      }
      if Total(TrivyResult, js).Count? {
        TrivyCounted(js);
      }
    }
  }

  lemma PackageExact(p: Json)
    ensures Package(p).Count? <==> OsvPackageShaped(p)
    ensures Package(p).Count? ==> Package(p).n == |Entries(p, "vulnerabilities")|
  {
    hide Get, Keys, Total, GetOrEmpty;
    if p.JObj? {
      MissingEntries(p, "vulnerabilities");
      if Listed(p, "vulnerabilities") {
        hide Listed;
        TotalShaped(Vulnerability, Entries(p, "vulnerabilities"));
        if Total(Vulnerability, Entries(p, "vulnerabilities")).Count? {
          OnePerEntry(Vulnerability, Entries(p, "vulnerabilities"));
        }
      }
      PackageNames(p);
    }
  }

  lemma PackageNames(p: Json)
    ensures (forall key | key in ["ecosystem", "name", "version"] :: NonEmpty(At(At(p, "package"), key))) <==>
            NonEmpty(At(At(p, "package"), "name")) && NonEmpty(At(At(p, "package"), "version")) &&
            NonEmpty(At(At(p, "package"), "ecosystem"))
  {
    var keys := ["ecosystem", "name", "version"];
    assert keys[0] in keys && keys[1] in keys && keys[2] in keys;
  }

  lemma {:induction false} PackagesCounted(js: seq<Json>)
    requires Total(Package, js).Count?
    ensures Total(Package, js).n == |AllEntries(js, "vulnerabilities")|
  {
    hide Package;
    if js != [] {
      PackagesCounted(js[1..]);
      PackageExact(js[0]);
    }
  }

  lemma OsvResultExact(r: Json)
    ensures OsvResult(r).Count? <==> OsvResultShaped(r)
    ensures OsvResult(r).Count? ==> OsvResult(r).n == |AllEntries(Entries(r, "packages"), "vulnerabilities")|
    ensures OsvResult(r).Count? ==> SourcePath(r) == Some(At(At(r, "source"), "path").s)
  {
    hide Get, Total, Package, OsvPackageShaped;
    if At(r, "packages").JArr? {
      var js := Entries(r, "packages");
      TotalShaped(Package, js);
      forall j ensures Package(j).Count? <==> OsvPackageShaped(j) {
        PackageExact(j);
      }
      if Total(Package, js).Count? {
        PackagesCounted(js);
      }
    }
  }

  lemma {:induction false} OsvCounted(js: seq<Json>)
    requires Total(OsvResult, js).Count?
    ensures Total(OsvResult, js).n == |AllEntries(AllEntries(js, "packages"), "vulnerabilities")|
  {
    hide OsvResult;
    if js != [] {
      OsvCounted(js[1..]);
      OsvResultExact(js[0]);
      AllEntriesAppend(Entries(js[0], "packages"), AllEntries(js[1..], "packages"), "vulnerabilities");
    }
  }

  /** The counts of an OSV document, exactly: the vulnerabilities of all packages of all results,
      over the distinct lockfile paths. */
  lemma OsvExact(document: Json)
    ensures OsvSpec(document).Counts? <==> OsvShaped(document)
    ensures OsvShaped(document) ==> OsvSpec(document) == Counts(|OsvFindings(document)|, |OsvPaths(document)|)
  {
    hide Get, Total, OsvResult, OsvResultShaped, SourcePath;
    if document.JObj? && At(document, "results").JArr? {
      var js := Entries(document, "results");
      TotalShaped(OsvResult, js);
      forall j ensures OsvResult(j).Count? <==> OsvResultShaped(j) {
        OsvResultExact(j);
      }
      if Total(OsvResult, js).Count? {
        OsvCounted(js);
        PathsExact(document);
      }
    }
  }

  lemma PathsExact(document: Json)
    requires forall j | j in Entries(document, "results") :: OsvResult(j).Count?
    ensures Sources(Entries(document, "results")) == OsvPaths(document)
  {
    hide Get, OsvResult;
    forall j | j in Entries(document, "results")
      ensures At(At(j, "source"), "path").JStr? && SourcePath(j) == Some(At(At(j, "source"), "path").s)
    {
      OsvResultExact(j);
    }
  }

  /** The counts of a Semgrep document, exactly. */
  lemma SemgrepExact(document: Json)
    ensures SemgrepSpec(document) ==
            if SemgrepShaped(document)
            then (Counts(|Entries(document, "results")|, |Entries(At(document, "paths"), "scanned")|),
                  |Entries(document, "errors")| > 0)
            else (Invalid, false)
  {
    hide Get;
    if document.JObj? && At(document, "results").JArr? && At(document, "errors").JArr? {
      var results, errors := Entries(document, "results"), Entries(document, "errors");
      forall j ensures j in results + errors <==> j in results || j in errors {
      }
    }
  }
}
