# RigorFoundry: verified models of the algorithms and protocols

RigorFoundry audits source repositories and keeps signed, content-addressed records of what it
found and of who may act on it. Most of it validates records. This project models the parts that
carry real algorithms and protocols, and proves what they promise:

- three cycle tests that decide the same property by different means: Tarjan's components
  (`TarjanState`, `Architecture`), a two-colour depth-first search (`RemediationGraph`) and a count of dequeued
  vertices (`Supersession`), with their agreement in `Acyclicity`;
- the collapse of correlated audit runs into witnesses by union-find (`UnionFind`,
  `CampaignIdentity`), the campaign comparison built on it, and the reader of its record
  (`CampaignCompare`, `CampaignProblems`, `CampaignVerdict`, `CampaignWording`, `CampaignReader`);
- the hash-chained permit ledger over a descriptor with short reads and writes (`LedgerWire`,
  `PermitLedger`);
- the bounded condition language, its parser, and its three-valued evaluation over partial
  observations (`JsonValue`, `ConditionLanguage`, `ConditionParser`, `ConditionEvaluation`,
  `ConditionFacts`, `ConditionState`), with what they accept and answer said independently
  (`ConditionGrammar`, `ConditionMeaning`);
- execution claims as a state machine with a safety property over all runs (`ClaimIsolation`);
- the static exclusion test of clause scopes against the selector matcher (`SelectorMatch`,
  `SelectorMeaning`, `ScopeExpansion`, with the path text in `Text` and `PosixPath`);
- capped process output and the evidence record made from it (`BoundedStreams`,
  `ProfileCounts`, `AdapterProfiles`), byte-bounded evidence text (`Utf8`, `CandidateEvidence`) and weekly windows
  (`ClauseWindows`).

`Prelude`, `Ordering` and `Graphs` hold what several modules share: results, sorting, walks and
cycles. Where the source
updates state in place, the model is a class, an array or a loop with invariants, tied to a
specification function or relation; the theorems are about those specifications. A source
function whose loop body is long is split over several methods of the model. Functions of the
model are also characterised by lemmas that do not mention their branches (`...Exact`,
`...Meaning`): by bytes, by text, by tables, or by the defects of the inputs.

SHA-256 is an arbitrary function throughout: results that need different digests return a
concrete collision instead. I/O, the clock, scheduling and process behaviour are parameters or
nondeterministic choices.

Some promises do not hold of the code as it stands. The code is kept as it is; for each, a lemma
gives a failing input and a theorem the exact condition:

- an accepted step keeps the isolation check satisfied: `ClaimIsolation.CompletionBreaksIsolation` and
  `ClaimIsolation.ExpiryBreaksIsolation` fail it, `ClaimIsolation.FinishExact` and
  `ClaimIsolation.AdvanceExact` decide it;
- expansion refuses an element that reaches nothing: `ScopeExpansion.GlobGap`,
  `ScopeExpansion.AgreementExact`;
- the permit ledger stays readable: `PermitLedger.ZeroTailBreaks`, `PermitLedger.RunSoundExact`;
- interpreting tool output never raises: `AdapterProfiles.ArrayStatusRaises`,
  `AdapterProfiles.RaisedExact`;
- an interpreted outcome fits its execution: `AdapterProfiles.BothFlagsContradict`,
  `AdapterProfiles.ExecutionExact`;
- an execution record can be read back: `AdapterProfiles.SignalUnreadable`,
  `AdapterProfiles.RunProfile`;
- a comparison record can be read back: `CampaignReader.ClashesUnreadable`,
  `CampaignReader.ReadableExact`.

`dafny verify dfyconfig.toml` checks the whole project.

## Model

| member | source | states |
|---|---|---|
| `Architecture.Tarjan.Push` | src/rigor_foundry/architecture.py:229-236 | a vertex gets the next number and lowlink and joins the stack; every search invariant survives |
| `Architecture.Tarjan.Visit` | src/rigor_foundry/architecture.py:229-252 | one recursive visit either pops the whole mutual-reachability class of its vertex and restores the stack, or leaves the vertex with a lowlink that is the number of an older stack vertex it reaches and bounds every edge back below |
| `Architecture.Tarjan.ScanAll` | src/rigor_foundry/architecture.py:237-242 | after the successor loop the lowlink accounts for every edge out of the new part of the stack |
| `Architecture.Tarjan.Close` | src/rigor_foundry/architecture.py:243-252 | the lowlink test is exact: it fires for the root of a class and only then, and the popped segment is that class |
| `Architecture.StronglyConnectedComponents` | src/rigor_foundry/architecture.py:218-257 | for every finite graph, edges to non-keys included: exactly the maximal mutually reachable sets of two or more vertices, each once, each sorted, in sorted order |
| `Architecture.ListingUnique` | src/rigor_foundry/architecture.py:254-257 | the graph alone determines the result, whatever the visiting order |
| `Architecture.MembersAreKeys` | src/rigor_foundry/architecture.py:260-266 | every member of every component is a key of the graph, so the definition lookup cannot fail |
| `Architecture.CyclicByListing` | src/rigor_foundry/architecture.py:218-257 | a graph has a directed cycle exactly when a component is listed or a vertex points at itself |
| `RemediationGraph.DepthFirst.Visit` | src/rigor_foundry/_remediation_graph.py:81-90 | a visit that returns has coloured its vertex visited, restored the visiting set, and kept the visited set closed and free of cycles; a visit that stops found a real cycle or a node without an entry |
| `RemediationGraph.AssertDag` | src/rigor_foundry/_remediation_graph.py:73-93 | accepts exactly when every dependency is a node, every node has an entry and there is no directed cycle; the unknown dependencies it reports are all of them |
| `RemediationGraph.OverlapExact` | src/rigor_foundry/_remediation_graph.py:67-70 | two path sets overlap exactly when some path lies under both |
| `Supersession.Dependants` | src/rigor_foundry/clause_semantics_binding_v2.py:268-273 | the reverse edges are counted with multiplicity, and an edge that leaves the admits is refused |
| `Supersession.Drain` | src/rigor_foundry/clause_semantics_binding_v2.py:274-283 | the number of dequeued vertices equals the number of admits exactly when the graph has no cycle |
| `Supersession.BindSupersession` | src/rigor_foundry/clause_semantics_binding_v2.py:267-286 | binding succeeds exactly on acyclic graphs within the admits; the active tuple is the sorted set of admits nothing supersedes |
| `Supersession.ActiveReachesAll` | src/rigor_foundry/clause_semantics_binding_v2.py:284-286 | every admit is reachable from an active one, so a non-empty set of admits never binds to an empty active set |
| `Acyclicity.Verdicts` | src/rigor_foundry/clause_semantics_binding_v2.py:267-283 | on every graph the depth-first search over all keys and the dequeue count give one verdict; on closed graphs it is also no listed component and no self-loop |
| `UnionFind.HalvingKeepsRoot` | src/rigor_foundry/campaign_identity.py:282-287 | path halving keeps parents at or below their children and moves no vertex to another root |
| `UnionFind.LinkingRoots` | src/rigor_foundry/campaign_identity.py:289-294 | hanging the larger root below the smaller one redirects exactly the larger root's own members |
| `UnionFind.Find` | src/rigor_foundry/campaign_identity.py:282-287 | returns the root, which is at most the start, leaves the list halved along the path and every root unchanged, and terminates because parents descend |
| `UnionFind.Union` | src/rigor_foundry/campaign_identity.py:289-294 | the two components and no others are merged, under the smaller root |
| `CampaignIdentity.LinkOwners` | src/rigor_foundry/campaign_identity.py:296-302 | although each run is linked only to the first owner of its family and of its exact model, two runs have the same root exactly when a chain of pairwise correlations links them |
| `CampaignIdentity.Group` | src/rigor_foundry/campaign_identity.py:304-306 | every record is filed under its root and nothing else is |
| `CampaignIdentity.BuildSummarises` | src/rigor_foundry/campaign_identity.py:188-226 | a witness lists, sorted and without repeats, exactly the families, exact models, providers, models, operators and run identifiers of its component |
| `CampaignIdentity.CollapseModelWitnesses` | src/rigor_foundry/campaign_identity.py:267-316 | succeeds exactly on portable, uniquely identified runs, and then returns one witness for each connected component of the full pairwise correlation relation, in key order; it blames a duplicate exactly when some identifier repeats before any malformed one |
| `CampaignIdentity.CollapseUnique` | src/rigor_foundry/campaign_identity.py:307-316 | the set of runs determines the witness tuple: every permutation of the input gives the same result |
| `CampaignIdentity.AcceptableExact` | src/rigor_foundry/campaign_identity.py:45-50 | the runs are accepted exactly when every identifier and identity component is 1 to 256 characters of the allowed code points and no two runs share an identifier |
| `CampaignIdentity.PortableExact` | src/rigor_foundry/campaign_identity.py:20-20 | a component is portable exactly when it has 1 to 256 letters, digits or, behind the first, one of the seven marks |
| `CampaignIdentity.SummaryMeaning` | src/rigor_foundry/campaign_identity.py:188-226 | membership in each field of a witness, spelled out in the fields of the runs, and the order of its exact-model pairs |
| `CampaignIdentity.OrderedByFamily` | src/rigor_foundry/campaign_identity.py:316-316 | witnesses stand in the order of their least family, so the run identifiers in the sort key never decide |
| `Ordering.StringLessMeaning` | src/rigor_foundry/campaign_identity.py:316-316 | texts are ordered by the first differing code point, a proper prefix first |
| `Ordering.StringsLessMeaning` | src/rigor_foundry/campaign_identity.py:316-316 | tuples of texts are ordered by their first different text, a proper prefix first |
| `CampaignIdentity.KeysDiffer` | src/rigor_foundry/campaign_identity.py:316-316 | different components share no family and no exact model, so the sort keys are distinct |
| `CampaignIdentity.WitnessPartition` | src/rigor_foundry/campaign_identity.py:296-316 | every run is named by exactly one witness, and two runs share theirs exactly when a chain of shared families or exact models links them |
| `CampaignIdentity.WitnessCount` | src/rigor_foundry/campaign_identity.py:307-316 | there are as many witnesses as connected components |
| `CampaignIdentity.OneMoreRun` | src/rigor_foundry/campaign_identity.py:296-316 | adding a run changes the number of witnesses by one minus the number, at most two, of components it touches |
| `LedgerWire.WriteAll` | src/rigor_foundry/_permit_ledger_storage_io_v2.py:27-34 | under every schedule of short writes the file grows by the whole payload, or by a proper prefix and the call fails |
| `LedgerWire.ReadExact` | src/rigor_foundry/_permit_ledger_storage_io_v2.py:37-47 | under every schedule of short reads the exact span is returned when the file holds it, and otherwise the call fails |
| `LedgerWire.UnpackPack` | src/rigor_foundry/_permit_ledger_records_v2.py:25-27 | unpacking a packed 112-byte record returns its fields, with zero padding |
| `LedgerWire.PackUnpack` | src/rigor_foundry/_permit_ledger_records_v2.py:109-111 | a record with zero padding is determined by its fields: packing what was unpacked returns the same bytes |
| `LedgerWire.MostSignificantFirst` | src/rigor_foundry/_permit_ledger_records_v2.py:25-25 | the integers of a record are read with the most significant byte first |
| `PermitLedger.CollectIds` | src/rigor_foundry/_permit_ledger_records_v2.py:124-130 | a consumption record is refused exactly when one of its identifiers was seen before; the requested identifiers are found exactly when they occur |
| `PermitLedger.CheckOne` | src/rigor_foundry/_permit_ledger_records_v2.py:107-158 | one record moves the scan state as its specification says, with the same refusal |
| `PermitLedger.CheckExact` | src/rigor_foundry/_permit_ledger_records_v2.py:107-158 | which 112 bytes the scan accepts next, byte range by byte range, and the record, head and identifiers it reads from them |
| `PermitLedger.RecordRead` | src/rigor_foundry/_permit_ledger_records_v2.py:107-158 | record i of a readable ledger is read from the bytes at 25 + 112 i and the head before it, and those bytes form a consumption or a recovery linked to that head |
| `PermitLedger.Scan` | src/rigor_foundry/_permit_ledger_records_v2.py:90-159 | under every schedule of short reads the loop computes the scan of the file: head, records, used identifiers, the head after the selected prefix, or the first refusal |
| `PermitLedger.ScanPrefix` | src/rigor_foundry/_permit_ledger_records_v2.py:107-108 | bytes behind the scanned records, torn or whole, do not change the scan |
| `PermitLedger.Append` | src/rigor_foundry/_permit_ledger_records_v2.py:162-177 | the packed record or a proper prefix of it reaches the file; the linked head is returned exactly when the record is whole and the fsync succeeds |
| `PermitLedger.AppendScans` | src/rigor_foundry/_permit_ledger_records_v2.py:162-177 | a linked record appended to an accepted ledger is accepted exactly when it is admissible, and the rescan is the old state extended by it |
| `PermitLedger.IdsSpentOnce` | src/rigor_foundry/_permit_ledger_records_v2.py:124-130 | in an accepted ledger no identifier occurs twice across both positions, and the used set is exactly what the records carry |
| `PermitLedger.EqualHeads` | src/rigor_foundry/_permit_ledger_records_v2.py:102-159 | equal heads after n and m records mean n equals m and identical bytes, or the walk back returns two different messages with one hash, the 25-byte initial message included |
| `PermitLedger.TornStep` | src/rigor_foundry/permit_consumption_ledger_v2.py:501-569 | an operation whose write is cut short leaves the old record count scanning to the old state, with exactly the written bytes as tail |
| `PermitLedger.CompletedStep` | src/rigor_foundry/permit_consumption_ledger_v2.py:501-621 | a completed operation appends exactly its record; the ledger stays readable except when a recovered tail hashes to the reserved zero digest, and in no other case |
| `PermitLedger.AcceptedExact` | src/rigor_foundry/permit_consumption_ledger_v2.py:535-556 | an operation is accepted exactly when every complete record scans, its arguments are in range, and it meets no torn tail and no recorded identifier (a consumption) or some torn tail (a recovery) |
| `PermitLedger.StepEffect` | src/rigor_foundry/permit_consumption_ledger_v2.py:557-616 | an accepted operation keeps the complete records and puts a leading part of one record behind them whose bytes are fixed: kind, both identifiers in their places, digest or hash of the removed tail, stamp, tail size and head; once whole, the rescan reads exactly those fields back |
| `PermitLedger.RunSoundExact` | src/rigor_foundry/permit_consumption_ledger_v2.py:501-621 | over every run of consumptions and recoveries with any write failures, the ledger becomes unreadable exactly when some accepted operation of the run, on a readable ledger, completes the recovery of a tail that hashes to the zero digest |
| `PermitLedger.RunAppends` | src/rigor_foundry/permit_consumption_ledger_v2.py:501-621 | after any run that leaves it readable the file rescans to exactly the old records followed by the records of the operations written whole, in order |
| `PermitLedger.RunSpends` | src/rigor_foundry/permit_consumption_ledger_v2.py:501-621 | the spent identifiers after a run are those before it and those of its completed operations |
| `PermitLedger.ZeroTailBreaks` | src/rigor_foundry/permit_consumption_ledger_v2.py:571-621 | a concrete torn ledger and hash for which a completed recovery leaves the ledger unreadable |
| `PermitLedger.ReplayRefused` | src/rigor_foundry/permit_consumption_ledger_v2.py:501-569 | after a completed consumption no operation of any later run that names one of its identifiers, in either position, is accepted |
| `PermitLedger.ConsumePermit` | src/rigor_foundry/permit_consumption_ledger_v2.py:501-569 | scan, refusal, custody checks and append together: the file grows by a leading part of the record that holds the permit identifier at 4..20, the single-use identifier or zeros at 20..36, the digest, the stamp and the old head; the rescan reads these fields back as its last record once it is whole; the call returns exactly when the record is whole and neither fsync nor closing check fails, with the head of the rescanned file |
| `PermitLedger.RecoverTornTail` | src/rigor_foundry/permit_consumption_ledger_v2.py:571-621 | the torn tail is replaced by a record of kind 1 that holds the hash and the size of its exact bytes, the stamp and the old head, with every failing custody check and fsync accounted for; the returned head is the head of the rescanned file unless the tail hashes to zero |
| `ConditionParser.BudgetExact` | src/rigor_foundry/condition_language.py:158-232 | the early depth and node budgets refuse exactly the trees that the unbudgeted parse followed by the shape check would refuse |
| `ConditionParser.RoundTrip` | src/rigor_foundry/condition_language.py:153-243 | parsing a serialised tree returns the same tree and its node count exactly when the tree was built and is within both budgets |
| `ConditionParser.RoundTripFree` | src/rigor_foundry/condition_language.py:158-243 | without budgets a serialised tree parses to itself exactly when every node is what build returns for its parts |
| `ConditionParser.ParsedIsBuilt` | src/rigor_foundry/condition_language.py:158-223 | whatever parses was built, so serialising and parsing again changes nothing |
| `ConditionGrammar.ReferenceExact` | src/rigor_foundry/condition_language.py:41-55 | a reference is one to sixteen segments, each a letter followed by letters, digits, underscores or hyphens, joined by dots |
| `ConditionGrammar.NodeRulesExact` | src/rigor_foundry/condition_language.py:97-137 | the rules of all operators, by aspect: leaves have a reference and no children, groups the reverse; only one-of has an array, non-empty and without repeats; values other than null belong to comparisons |
| `ConditionGrammar.BuiltExact` | src/rigor_foundry/condition_language.py:97-150 | a tree is built exactly when every node has the right reference, value and number of children, and its digest is that of its serial form without the last member |
| `ConditionGrammar.ReadExact` | src/rigor_foundry/condition_language.py:171-213 | one node is read exactly from an object with the six members that spell it, in any order |
| `ConditionGrammar.ParseExact` | src/rigor_foundry/condition_language.py:158-223 | without budgets the JSON values that parse are exactly the serial forms of built trees, each to its own tree |
| `ConditionGrammar.FromDictExact` | src/rigor_foundry/condition_language.py:153-223 | the parser accepts exactly the serial forms of built trees of depth at most 8 and at most 64 nodes |
| `ConditionParser.ParseChildren` | src/rigor_foundry/condition_language.py:193-202 | the child loop that threads the remaining budget computes the budgeted parse of the whole list |
| `ConditionParser.FromDict` | src/rigor_foundry/condition_language.py:158-223 | the recursive parser with its loop computes the specified budgeted parse |
| `ConditionParser.ValidatedExpression` | src/rigor_foundry/condition_evaluation.py:20-35 | the work-stack check followed by serialise and parse accepts exactly built trees within both budgets, and returns them unchanged |
| `ConditionEvaluation.LookupNest` | src/rigor_foundry/condition_evaluation.py:59-65 | the nested context made for a known leaf is found again by the dotted lookup |
| `ConditionLanguage.LookupExact` | src/rigor_foundry/condition_language.py:288-295 | a lookup finds a value exactly when a path of nested mappings leads to it |
| `ConditionLanguage.TestExact` | src/rigor_foundry/condition_language.py:259-286 | a leaf raises exactly outside the domain of its operator, is false on a missing value, and otherwise says what the operator means: equality, order of numbers, text between two texts, membership |
| `ConditionMeaning.EvaluateExact` | src/rigor_foundry/condition_language.py:251-286 | the Boolean evaluator raises exactly when a bad leaf comes before any child that decides the groups around it, and otherwise answers as the leaves and the quantifiers read |
| `ConditionMeaning.TablesExact` | src/rigor_foundry/condition_evaluation.py:68-92 | the verdict is TRUE or FALSE exactly as the three-valued tables say, and UNKNOWN otherwise: all is FALSE when some child is, TRUE when every child is; any dually; not swaps; a leaf decides when its reference is known or absent |
| `ConditionEvaluation.DefiniteIsRight` | src/rigor_foundry/condition_evaluation.py:68-92 | TRUE or FALSE is the value of the Boolean evaluator in every nested context that agrees with the facts and in which that evaluator returns |
| `ConditionEvaluation.ObservedIsDefinite` | src/rigor_foundry/condition_evaluation.py:68-92 | with no unknown reference the result is never UNKNOWN, and the Boolean evaluator returns the same value without raising |
| `ConditionEvaluation.DefiniteStays` | src/rigor_foundry/condition_evaluation.py:68-92 | observing an unknown fact never turns TRUE into FALSE or back |
| `ConditionEvaluation.RaisesExactly` | src/rigor_foundry/condition_evaluation.py:68-92 | the evaluation raises exactly when some known leaf violates its operand domain, even beside a decisive sibling |
| `ConditionFacts.CheckedFacts` | src/rigor_foundry/condition_evaluation.py:38-56 | accepts exactly bounded fact maps with valid references whose known references do not lie below observed ones, and returns them unchanged |
| `ConditionFacts.LookupRealised` | src/rigor_foundry/condition_language.py:288-295 | the context built from prefix-free paths returns each value and misses every path that leads to none |
| `ConditionFacts.AcceptedRealised` | src/rigor_foundry/condition_evaluation.py:38-56 | for every accepted fact map some nested context returns each known value and misses each absent reference |
| `ConditionFacts.AcceptedIffRealisable` | src/rigor_foundry/condition_evaluation.py:48-55 | the parent rule is the right one: a fact map within the other bounds is accepted exactly when some nested context realises it |
| `ConditionState.EvaluateConditionState` | src/rigor_foundry/condition_evaluation.py:95-130 | raises exactly for an invalid tree, invalid facts or a bad known operand; otherwise its verdict is TRUE, FALSE or UNKNOWN exactly as the three-valued tables say, a leaf being UNKNOWN exactly when its reference is missing or unknown; the verdict is sound for every agreeing context, and such a context exists |
| `ClaimIsolation.AssertGroupIsolated` | src/rigor_foundry/claim_isolation.py:305-325 | one group passes exactly when its claims are pairwise compatible, all prerequisites are present and the prerequisite relation is acyclic |
| `ClaimIsolation.GroupByRepository` | src/rigor_foundry/claim_isolation.py:298-300 | the dictionary holds, for every repository, exactly its claims in order |
| `ClaimIsolation.AssertClaimIsolation` | src/rigor_foundry/claim_isolation.py:275-302 | passes exactly when the claims that hold now have distinct non-blank identifiers and every repository group is isolated |
| `ClaimIsolation.AdmitClaim` | src/rigor_foundry/claim_isolation.py:328-361 | admits exactly an active candidate that leaves the combined claims isolated, and then appends it |
| `ClaimIsolation.IsolatedExact` | src/rigor_foundry/claim_isolation.py:275-325 | the check is the safety property of all pairs, plus presence of prerequisites and non-blank identifiers |
| `ClaimIsolation.SafeExact` | src/rigor_foundry/claim_isolation.py:305-325 | safety in terms of the claims alone: active, unexpired claims have different identifiers, those of one repository have no path under both write sets and no common serialization key, and no claim waits for itself along prerequisites |
| `ClaimIsolation.BuildableExact` | src/rigor_foundry/claim_isolation.py:97-157 | what the builder of a claim demands: no repeated or blank entries, no self-prerequisite, a later expiry, and relative paths without traversal |
| `ClaimIsolation.FinishStep` | src/rigor_foundry/claim_isolation.py:174-202 | completing, cancelling or rolling back is accepted exactly for an active, well-built claim and a terminal status; the result has that status there, everything else is as before, and the claim holds at no instant |
| `ClaimIsolation.AdmitAdvanceStep` | src/rigor_foundry/claim_isolation.py:328-361 | an admission is accepted exactly for an active, well-built candidate isolated from the claims that hold, and appends it; the clock only moves forward and changes no claim |
| `ClaimIsolation.StepKeepsSafe` | src/rigor_foundry/claim_isolation.py:160-202 | every accepted admit, completion, cancellation, roll-back or clock advance keeps the state safe |
| `ClaimIsolation.ReachableSafe` | src/rigor_foundry/claim_isolation.py:160-361 | every state reachable from no claims, by any run under a non-decreasing clock, is safe |
| `ClaimIsolation.FinishExact` | src/rigor_foundry/claim_isolation.py:190-202 | an accepted completion, cancellation or roll-back leaves the state isolated exactly when the claim has expired or no holding claim of its repository names it as a prerequisite |
| `ClaimIsolation.AdvanceExact` | src/rigor_foundry/claim_isolation.py:160-165 | advancing the clock keeps the isolation check satisfied exactly when no claim that still holds names a prerequisite that has expired by then |
| `ClaimIsolation.CompletionBreaksIsolation` | src/rigor_foundry/claim_isolation.py:317-323 | a concrete pair of isolated claims that fails the check after one completion |
| `ClaimIsolation.ExpiryBreaksIsolation` | src/rigor_foundry/claim_isolation.py:317-323 | the same pair fails the check once the prerequisite has expired and the claim has not |
| `SelectorMatch.CanonicalParse` | src/rigor_foundry/clause_semantics_scope_v2.py:44-57 | on a canonical path the pure-path parts are the root and the matcher's components, none dropped |
| `PosixPath.CoversExact` | src/rigor_foundry/_remediation_graph.py:67-70 | sharing the root and a prefix of the segments is being the path itself or one of its parents |
| `SelectorMatch.ComparisonsAgree` | src/rigor_foundry/clause_selector_match_v2.py:23-32 | component prefixes, pure-path ancestry and the text comparison of the overlap check agree on all canonical paths |
| `SelectorMatch.CoversByText` | src/rigor_foundry/effect_target_overlap_v2.py:17-31 | a component prefix is equality, the root, or a text prefix that ends at a separator |
| `SelectorMeaning.TableExact` | src/rigor_foundry/effect_target_table_v2.py:24-40 | the permitted class, kind and form triples are exactly the fifteen rows |
| `SelectorMeaning.CanonicalExact` | src/rigor_foundry/clause_semantics_scope_v2.py:44-57 | a canonical path is the root, or good segments joined by single slashes behind one; a glob may also use a star as a whole segment |
| `SelectorMeaning.RoleExact` | src/rigor_foundry/clause_semantics_scope_v2.py:114-149 | any-selectors are targets of a veto only, globs exclusions of everything else only, and every other form is valid by its value alone, in either role |
| `SelectorMeaning.ServiceExact` | src/rigor_foundry/clause_semantics_scope_v2.py:136-145 | an endpoint value is two identifiers around the only colon |
| `SelectorMeaning.ActionExact` | src/rigor_foundry/effect_target_render_v2.py:39-46 | an extracted action is valid exactly when some admit target renders it and, for a remote, the journal accepts its value too |
| `SelectorMeaning.AnyExact` | src/rigor_foundry/clause_selector_match_v2.py:102-105 | a wide selector covers exactly the actions whose form or kind it names behind `any-` |
| `SelectorMeaning.GlobExact` | src/rigor_foundry/clause_selector_match_v2.py:118-125 | a glob covers a path exactly when the path lies at or below one that agrees with the glob outside its stars |
| `SelectorMeaning.MatchExact` | src/rigor_foundry/clause_selector_match_v2.py:80-128 | the matcher answers exactly on a row of the table, a valid action and a valid selector; it answers yes for a subtree by its text, a glob by its stars, a wide selector by name, and a label when it renders the action |
| `SelectorMeaning.LabelsExact` | src/rigor_foundry/effect_target_render_v2.py:39-46 | selector text is the form name of the action it renders, a colon and the value; hosts are the action value itself |
| `ScopeExpansion.ExpandTargets` | src/rigor_foundry/clause_scope_registry_expansion_v2.py:235-252 | every subject but admit is refused exactly when some target element is emptied by the exclusions; otherwise all targets are returned, sorted and without repeats |
| `ScopeExpansion.ReachedExact` | src/rigor_foundry/clause_selector_match_v2.py:96-128 | with any exclusions, globs included, an element reaches some action exactly when one of its targets is itself an action that no exclusion matches |
| `ScopeExpansion.ContainmentExact` | src/rigor_foundry/clause_scope_registry_expansion_v2.py:116-128 | for exclusions without globs, static containment of a target is the matcher's answer on the target itself |
| `ScopeExpansion.RefusalSound` | src/rigor_foundry/clause_scope_registry_expansion_v2.py:239-248 | a refused element reaches no action, whatever the exclusions and the effect class |
| `ScopeExpansion.GlobFreeExact` | src/rigor_foundry/clause_scope_registry_expansion_v2.py:239-248 | without globs, testing one exclusion at a time is complete against their union, for every effect class |
| `ScopeExpansion.RefusalExact` | src/rigor_foundry/clause_scope_registry_expansion_v2.py:239-248 | for a veto, and for every other subject without glob exclusions, with a class that offers the targets: an element is refused exactly when no action is matched by it and by no exclusion |
| `ScopeExpansion.AgreementExact` | src/rigor_foundry/clause_scope_registry_expansion_v2.py:239-248 | with any exclusions, refusal agrees with reaching nothing exactly when the element is refused or one of its targets is itself an action that no exclusion matches |
| `ScopeExpansion.GlobGap` | src/rigor_foundry/clause_scope_registry_expansion_v2.py:116-128 | a concrete target and glob for which expansion accepts an element that reaches nothing |
| `BoundedStreams.Reader.ReadOne` | src/rigor_foundry/adapter_runtime.py:361-376 | one read does what its report amounts to: it closes a stream read whole, or keeps what the system offers up to the read size and the cap, cutting exactly when something did not fit |
| `BoundedStreams.Reader.ReadAll` | src/rigor_foundry/adapter_runtime.py:353-378 | the select loop stops exactly where the schedule says; time has run out exactly when neither both ends of stream nor the cap was reached by then |
| `BoundedStreams.StreamProcess` | src/rigor_foundry/adapter_runtime.py:325-413 | for every schedule: buffers are prefixes of the lengths the schedule amounts to, within the cap; the run is timed out exactly when the schedule runs out, or the output fits and the ending is a missed deadline; it is truncated exactly when the schedule does not run out and the process wrote more than the cap; an unflagged run kept both streams whole and returns the exit code |
| `BoundedStreams.FairFinishes` | src/rigor_foundry/adapter_runtime.py:353-378 | a schedule that starts with as many turns offering both streams as there are bytes and streams never runs out, however short the reads are |
| `ProfileCounts.TrivyCounts` | src/rigor_foundry/adapter_profiles.py:429-463 | the nested loops succeed exactly on documents of the right shape, and then count the misconfigurations with status FAIL and the secrets of all results, over as many targets as results |
| `ProfileCounts.OsvCounts` | src/rigor_foundry/adapter_profiles.py:466-507 | the nested loops succeed exactly on documents of the right shape, and then count the vulnerabilities of all packages of all results, over the distinct lockfile paths |
| `ProfileCounts.SemgrepExact` | src/rigor_foundry/adapter_profiles.py:409-426 | a Semgrep document of the right shape counts its results over its scanned paths, with errors exactly when it lists some |
| `ProfileCounts.TotalExact` | src/rigor_foundry/adapter_profiles.py:437-462 | a total is a count exactly when every entry is, and otherwise fails as its first failing entry does |
| `AdapterProfiles.InterpretProfileOutput` | src/rigor_foundry/adapter_profiles.py:510-547 | the outcome always makes valid evidence and fits its execution exactly when the two flags are not both set; each reason is given exactly for the output it names, with the counts of the document; it is clean exactly for an unflagged run with return code zero whose document has the right shape, some target, no finding and no error; the call raises exactly on an odd status in the first failing Trivy result |
| `AdapterProfiles.OutcomeIsEvidence` | src/rigor_foundry/adapter_profiles.py:300-350 | every interpreted outcome satisfies all relations the evidence record demands |
| `AdapterProfiles.ExecutionExact` | src/rigor_foundry/adapters.py:124-160 | an interpreted outcome satisfies the relations with its execution exactly when the two output flags are not both set |
| `AdapterProfiles.PassedExact` | src/rigor_foundry/adapter_profiles.py:510-547 | a pass means an unflagged run with return code zero whose document has the right shape and reports no finding and no error over at least one target, and conversely |
| `AdapterProfiles.OutcomeExact` | src/rigor_foundry/adapter_profiles.py:510-547 | when each of the eight reasons is given, in terms of the flags, the shape of the document, its errors, targets and findings, and the return code |
| `AdapterProfiles.EvidenceByReason` | src/rigor_foundry/adapter_profiles.py:300-350 | the relations of an evidence record, reason by reason |
| `AdapterProfiles.ExecutionByReason` | src/rigor_foundry/adapters.py:131-160 | the execution fields that fit evidence of each reason |
| `AdapterProfiles.RaisedExact` | src/rigor_foundry/adapter_profiles.py:452-456 | the interpretation raises exactly for an unflagged Trivy run whose first failing result fails at a misconfiguration with an array or object as status |
| `ProfileCounts.OddResultExact` | src/rigor_foundry/adapter_profiles.py:437-459 | a result fails with a type error exactly when its identity and arrays are valid and its first failing misconfiguration has an array or object as status |
| `AdapterProfiles.ArrayStatusRaises` | src/rigor_foundry/adapter_profiles.py:452-456 | a concrete Trivy document on which the interpretation raises |
| `AdapterProfiles.BothFlagsContradict` | src/rigor_foundry/adapters.py:141-144 | a response with both flags set whose outcome contradicts its execution |
| `AdapterProfiles.SignalUnreadable` | src/rigor_foundry/adapters.py:217-217 | a run ended by a signal whose record cannot be read back |
| `AdapterProfiles.RunProfile` | src/rigor_foundry/adapters.py:415-642 | reading and interpreting one run always yields evidence and execution fields that satisfy both sets of relations, and the record can be read back exactly when a flag is set or the exit code is not negative; the run is unflagged exactly when its schedule does not run out, its output fits and it exits in time; a clean verdict rests on both streams kept whole |
| `Utf8.RoundTrip` | src/rigor_foundry/candidate_anchor.py:92-94 | decoding encoded text returns it |
| `Utf8.DecodeFirstExact` | src/rigor_foundry/candidate_anchor.py:92-94 | bytes start with a character exactly when they start with its encoding |
| `Utf8.PrefixExact` | src/rigor_foundry/candidate_anchor.py:92-94 | cutting the bytes and decoding with errors ignored keeps exactly the longest run of whole characters that fits |
| `Utf8.FitsTightly` | src/rigor_foundry/candidate_anchor.py:92-94 | at most three bytes of the limit stay unused when text is cut |
| `Utf8.OrderKept` | src/rigor_foundry/clause_scope_registry_expansion_v2.py:233-252 | sorting by UTF-8 bytes is sorting by code points |
| `CandidateEvidence.EvidenceBounded` | src/rigor_foundry/candidate_anchor.py:97-140 | evidence text is at most 512 bytes; its header is the caption, the decimal count and the identity in their places; it is complete exactly when that fits, and otherwise the header, the longest fitting prefix and the marker, 509 to 512 bytes long; failures are exactly empty text and a header that leaves no room |
| `CandidateEvidence.DecimalExact` | src/rigor_foundry/candidate_anchor.py:130-130 | the count is written as its decimal numeral without leading zeros |
| `CandidateEvidence.JoinCommaExact` | src/rigor_foundry/candidate_anchor.py:129-129 | the values stand in order with a comma and a space between neighbours |
| `ClauseWindows.ClockOrder` | src/rigor_foundry/clause_semantics_set_v2.py:131-137 | the text order of HH:MM is the numeric order of minutes |
| `ClauseWindows.ClockExact` | src/rigor_foundry/clause_semantics_set_v2.py:54-54 | the accepted clock texts are exactly the 1440 minutes of the day, each read as its own |
| `ClauseWindows.DayExact` | src/rigor_foundry/clause_semantics_set_v2.py:49-49 | weekdays are the seven names, indexed by their place in the week |
| `ClauseWindows.SpansExact` | src/rigor_foundry/clause_semantics_set_v2.py:138-141 | two spans overlap as texts exactly when some minute lies in both ranges |
| `ClauseWindows.Occupy` | src/rigor_foundry/clause_semantics_set_v2.py:138-142 | the day loop refuses exactly when an earlier span on one of the days overlaps, and otherwise files the span under each day once |
| `ClauseWindows.Window` | src/rigor_foundry/clause_semantics_set_v2.py:113-142 | accepts exactly non-empty lists of well-formed ranges, strictly ordered by first weekday and start, that place every minute of the week in at most one range |
| `CampaignCompare.CoverageDivergence` | src/rigor_foundry/campaign_compare.py:358-383 | the per-run omissions of every run, and one more problem exactly when two runs covered different domain sets |
| `CampaignCompare.ScannedExact` | src/rigor_foundry/campaign_compare.py:386-406 | comparing with the first run only finds nothing exactly when all pairs agree on candidates and report digest |
| `CampaignCompare.AdapterDivergence` | src/rigor_foundry/campaign_compare.py:409-450 | the per-run problems of every run, then, sorted, exactly the adapters for which two pieces of evidence differ |
| `CampaignCompare.ReviewDivergence` | src/rigor_foundry/campaign_compare.py:453-478 | in candidate order, exactly the candidates that two decisive reviews decide differently, and exactly those two valid reviews rank differently |
| `CampaignCompare.CompareCampaign` | src/rigor_foundry/campaign_compare.py:481-602 | raises exactly when the collapse refuses the runs; otherwise every field of the record is as specified, from the divergence lists to the eligibility flag |
| `CampaignProblems.ListsExact` | src/rigor_foundry/campaign_compare.py:344-574 | each list of the record holds exactly the problems of its kind that are defects: per run, per pair of runs, per pair of reviews, or of the campaign, each said of the inputs alone |
| `CampaignProblems.UnresolvedExact` | src/rigor_foundry/campaign_compare.py:561-574 | a record is unresolved exactly when some defect exists, and eligible exactly when it is a promotion and resolved |
| `CampaignProblems.IdsExact` | src/rigor_foundry/campaign_compare.py:529-530 | the run identifiers and attestations are those of the runs, sorted |
| `CampaignProblems.ValuesExact` | src/rigor_foundry/campaign_compare.py:503-534 | the agents, reports and review digests are those of the runs and reviews, ascending without repeats |
| `CampaignVerdict.EligibleExact` | src/rigor_foundry/campaign_compare.py:561-574 | a promotion is eligible exactly when all runs are clean, all pairs agree, there are enough runs, witnesses and operators, and the reviews exist and never clash |
| `CampaignVerdict.EligibleMeans` | src/rigor_foundry/campaign_compare.py:386-406 | an eligible promotion rests on complete runs that all agree on candidates, report and coverage, on enough witnesses, and on runs of two different operators |
| `CampaignVerdict.OrderIndependent` | src/rigor_foundry/campaign_compare.py:481-602 | reordering the runs changes neither the witnesses nor the run list, the unresolved flag or the eligibility |
| `CampaignReader.CollapseReadable` | src/rigor_foundry/campaign_compare.py:193-206 | the witnesses of a collapse pass the reader's uniqueness and partition checks |
| `CampaignReader.ReaderExact` | src/rigor_foundry/campaign_compare.py:182-310 | which records the cross-field checks accept, whoever wrote them: counts agree, lists ascend, witnesses share nothing and partition the runs, and both verdicts follow from the problem lists |
| `CampaignReader.ListsReadable` | src/rigor_foundry/campaign_compare.py:347-451 | in the actual wording, different problems of one list have different texts, so the five sorted lists are strictly ascending as the reader demands |
| `CampaignReader.ReadableExact` | src/rigor_foundry/campaign_compare.py:182-310 | for candidate identifiers without a colon followed by a space, or of one length, the reader accepts a written record exactly when the attestation digests differ and the candidates on which reviews clash keep their order when each is followed by the separator of its message |
| `CampaignReader.OneLengthReadable` | src/rigor_foundry/campaign_compare.py:182-310 | with candidate identifiers of one length and different attestation digests, the record passes every cross-field check of its reader |
| `CampaignReader.ClashesUnreadable` | src/rigor_foundry/campaign_compare.py:463-477 | concrete reviews whose record the reader refuses, whatever the campaign and the runs |
| `CampaignWording.ReviewOrderExact` | src/rigor_foundry/campaign_compare.py:463-477 | a review list, which follows the candidate identifiers, is in the order of its texts exactly when the identifiers keep their order with the separator appended |
| `CampaignWording.OneLengthClosed` | src/rigor_foundry/campaign_compare.py:463-477 | identifiers of one length, such as digests, keep their order |

## Left out

- Architecture, RemediationGraph, ConditionParser: Python's recursion limit is not modelled.
- Iteration over a set or a dictionary is modelled in sorted order, or in any order; the results proved do not depend on it.
- Digests and canonical JSON: a digest is an arbitrary function of the record, so the digest comparisons of the readers are not stated except in the ledger and the condition tree.
- File identity, locks, fsync, symbolic links, Git, sandboxes, executables and signatures: only the read and write loops of the permit ledger and the output loop of a process are modelled.
- `initialize`, `verify_anchor`, leases and snapshots of the permit ledger: they add custody checks around the modelled scan and append.
- UUID text forms and timestamps: identifiers are 16 bytes and instants are integers.
- ConditionLanguage numbers are reals: NaN, infinities and the overflow of huge literals are not modelled, and neither is the boundary between integers and floats of equal value.
- ClaimIsolation treats as blank only space, tab, line feed and carriage return, where Python strips every Unicode white space.
- Registry template expansion (`_expand_one`) and the registry itself: the expanded elements are given data.
- ScopeExpansion.RefusalExact: any-selectors are excluded from the targets, because the static test never contains them; the two remote URL grammars are parameters.
- SelectorMatch.ComparisonsAgree: stated for paths without a star, which is what selectors other than globs and extracted targets are.
- BoundedStreams.StreamProcess: a schedule is a finite list of readiness reports; when it is used up the deadline has passed. Termination leaves the process dead, because the source raises otherwise.
- AdapterProfiles: the JSON text decoder and the blank test of the error stream are parameters; nesting so deep that the decoder fails is not modelled.
- AdapterProfiles.RunProfile: workspace, version query, database and executable checks are not modelled, nor are the unavailable outcomes they produce.
- CandidateEvidence: white-space normalisation and the digest of the values are inputs; text with lone surrogates, which Python refuses to encode, has no counterpart here.
- ClauseWindows: the closed-object checks on the JSON fields are not modelled, nor are the rate, route and precondition parsers.
- CampaignCompare: which report inputs differ from the contract and whether adapter evidence satisfies the report policy are inputs of a run; identifier, actor and timestamp checks are not modelled.
- CampaignReader.ReadableExact: the per-field grammar and the digest of the record are not modelled; candidate identifiers that contain a colon followed by a space and differ in length are left out, because their order then depends on the rest of the message.
- CampaignWording: what follows the fixed beginning of a message (domain names, counts, messages of other checks) is arbitrary.
- Static catalogues, schema field lists, installers, the command line and the other scanners of the repository.
