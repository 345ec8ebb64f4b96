# Verified core of the local epistemic compiler

A Dafny model of the parts of the coding agent whose correctness is hardest to see from the code, with proofs of what
they promise. `dafny verify dfyconfig.toml` checks the whole project.

| area | files |
|---|---|
| Outbound mutation outbox of the runner: durable rows, callers, network and crashes as a step system, and the store and the signed call as code that refines it | `Outbox.dfy` |
| Canonical JSON, section 3.2 of RFC 8785: a recursive printer and a cursor parser | `JsonLexis.dfy`, `CanonicalJson.dfy`, `CanonicalJsonCode.dfy`, `CanonicalJsonEquality.dfy` |
| Context selection under a token budget and the critical-omission gate | `ContextSelection.dfy`, `ContextSelectionCode.dfy`, `ContextUtility.dfy`, `ContextUtilityCode.dfy` |
| Evidence: union-find deduplication, identity-preserving merging, rank fusion | `UnionFind.dfy`, `Dedupe.dfy`, `EvidenceGraph.dfy`, `EvidenceMerge.dfy`, `EvidenceMergeCode.dfy`, `Fusion.dfy` |
| Content-addressed store: the lock, reads and writes, garbage collection, the incoming area, the envelope codec | `CasLock.dfy`, `CasStore.dfy`, `CasFiles.dfy`, `CasCollector.dfy`, `CasIncoming.dfy`, `BlobCodec.dfy`, `Utf8.dfy` |
| Workflow graphs: rewriting, cycle check, scheduling, shard order, skill closure | `Workflow.dfy`, `ProfileGraph.dfy`, `ProfileCompose.dfy`, `ProfileCompiler.dfy`, `CycleCheck.dfy`, `DagEngine.dfy`, `DagRuns.dfy`, `ShardOrder.dfy`, `SkillClosure.dfy` |
| Arithmetic: Poly1305, section 2.5.1 of RFC 8439, and RFC 3339 timestamps | `Poly1305.dfy`, `CivilDate.dfy` |
| Shared: UTF-16 text order, stable sorting, directed graphs | `Text16.dfy`, `Sorting.dfy`, `Digraph.dfy` |

## How the model is built

- Pure code is functions. Loops are methods proved equal to a function, or to a property stated outright; the theorems
  are lemmas about that function. Objects whose fields change are classes. Code that awaits, or that another process can
  interrupt, is a step system, and its theorems are about every reachable state of every run.
- Strings that are compared by order are sequences of UTF-16 code units, since that is how JavaScript compares them.
- Hashes, ciphers, key unwrapping, token estimates, occupancy checks and the commit named by a path are function-valued
  parameters. Where a result needs a hash to be injective or a cipher to be invertible, it says so in its `requires`.
- Clock readings, random names, the answers of the network and of the file system, and files another process installs are
  parameters, so the results hold for all of them.
- Utilities are exact reals. Fusion scores use any division and addition, since double addition commutes but does not
  associate.
- A deduplicated subject carries the input subjects it stands for, where the source carries their ids.
- JSON numbers are a parameter with a printing and a reading function; the integers with both zeros are
  shown to be an instance.
- Sorting is a stable insertion sort by the same comparison; where keys are distinct the result does not depend on that.

Promises that do not hold in general come with the condition under which they do and a lemma at an input where they fail.

| promise | holds | fails at |
|---|---|---|
| JSON round trip | without `__proto__` properties and negative zero: `CanonicalJson.RoundTripExactly` | `CanonicalJsonCode.NegativeZeroLosesItsSign`, `CanonicalJsonCode.ProtoIsLost` |
| Nodes of one evidence id merge | when they agree on being historical, which clean fusion provenance guarantees: `EvidenceMerge.MergeNodesExactly` | `EvidenceMerge.FusionHistoryBlocksMerge` |
| An invalidated node stays invalidated on merging | when both are of one independence group: `EvidenceMerge.InvalidatedStaysExactly` | `EvidenceMerge.GroupsHideInvalidation` |
| Envelope round trip | for the nonce length of the algorithm, a full tag and a key id that is proper text: `BlobCodec.RoundTripExactly`, `BlobCodec.EncodeUndoesParse` | `BlobCodec.SurrogateKeyIdChanges`, `BlobCodec.IllFormedKeyIdReencodes`, `BlobCodec.ShortNonceChanges` |
| The scheduler is never silently stuck | unless nothing is active or ready while one node failed and another waits to retry: `DagEngine.StuckExactly`; no run reaches that: `DagRuns.RunsNeverStick` | `DagEngine.RetryingDependentSticks` |
| Starting a batch keeps a single writer | when at most one writer is ready: `DagEngine.BatchKeepsSingleWriterExactly`; one start at a time always does | `DagEngine.TwoReadyWritersBothStart` |
| A marked object's bytes stay recoverable for 29 days | when the day's folder held no other bytes of its name: `CasFiles.MarkedObjectsRecoverable` | `CasFiles.DamagedEntryKeepsItsPlace` |
| An object that leaves the store has an entry | unless some sweep has found the mover's folder old enough: `CasCollector.ObjectsLeaveJustified`, and for every reading that does there is a losing run: `CasCollector.StalledMarkLosesObject` | `CasCollector.StalledMarkExists` |
| The entry of an object that leaves holds its bytes | when the entry the mover's last link found or made held them: `CasCollector.EntryHoldsExactly` | `CasCollector.ReplacedObjectLost` |
| Every skill on a reachable cycle is flagged | when no reachable skill is on two cycles (one direction, `SkillClosure.OverlapMayBeFlagged`): `SkillClosure.FlagsAllOnCycles`; some skill of each always is: `SkillClosure.CloseDependencies` | `SkillClosure.SharedCycleStaysListed` |
| Ranks ignore the order of channels | when no id is hit more than twice, or addition associates (one direction): `Fusion.PairRanksIgnoreChannelOrder`, `Fusion.RanksIgnoreChannelOrder` | `Fusion.ThirdHitSwapsRanks` |
| Timestamps sort as instants | up to the year 9999: `CivilDate.TimestampsOrderAsInstants` | `CivilDate.OrderBreaksAt10000` |

## Model

| member | source | states |
|---|---|---|
| Outbox.StepKeepsInv | native/runner/src/local_store.rs:376-480 | One invariant over rows, callers, sent requests and answers survives every step: prepare, the guarded updates, network outcomes, local errors, crash and reopen. |
| Outbox.RunInv | native/runner/src/local_store.rs:376-480 | Every state of every interleaved run satisfies the invariant. |
| Outbox.RunEvolves | native/runner/src/local_store.rs:436-480 | Between any two states of a run rows only move forward and what was sent or returned stays sent or returned. |
| Outbox.AtMostOneRoundtrip | native/runner/src/api_client.rs:107-155 | In every run an operation id starts at most one network roundtrip. |
| Outbox.AcceptedCallsAgree | native/runner/src/local_store.rs:376-434 | All calls sent or answered under one operation id carry one semantic digest, and every response returned is the one the server gave to the one request. |
| Outbox.UnknownNeverResent | native/runner/src/local_store.rs:471-480 | A row with an unknown outcome never changes, is never sent again and never yields a response. |
| Outbox.CompletedIsFinal | native/runner/src/local_store.rs:450-469 | A completed row never changes, is never sent again, and every later call with its digest reads the stored response. |
| Outbox.LocalStore.PrepareMutation | native/runner/src/local_store.rs:376-434 | An existing row is only read and decides the answer; a missing one is inserted as prepared with the body and digest of the call. |
| Outbox.LocalStore.MarkRowInFlight | native/runner/src/local_store.rs:436-448 | Succeeds exactly for a prepared row and changes nothing else. |
| Outbox.LocalStore.MarkRowCompleted | native/runner/src/local_store.rs:450-469 | Succeeds exactly for a prepared row or one in flight and stores the response in it alone. |
| Outbox.LocalStore.MarkRowUnknown | native/runner/src/local_store.rs:471-480 | Makes the outcome of a row in flight unknown and leaves every other row alone. |
| Outbox.LocalStore.ReconcileOnOpen | native/runner/src/local_store.rs:718-742 | After opening no row is in flight: those that were have an unknown outcome. |
| Outbox.LocalStore.constructor | native/runner/src/local_store.rs:85-102 | A store opened on durable rows holds their reconciled form. |
| Outbox.CallOnce | native/runner/src/api_client.rs:107-155 | What a whole call does, from its rows, its digest and the network alone: with no row, or a prepared one of its digest, it goes out once and either its row is completed with the answer, which is returned, or its outcome is unknown and nothing is returned; with a completed row of its digest the stored response is returned and nothing changes; in every other case nothing is returned, sent or changed. No other row changes, and it is a run of the protocol. |
| Outbox.SendPrepared | native/runner/src/api_client.rs:114-155 | A prepared row goes in flight and its request is sent exactly once; the row ends completed with the answer or with an unknown outcome. |
| Outbox.FinishCall | native/runner/src/api_client.rs:121-155 | After the roundtrip: an answer completes the row and is returned, none makes its outcome unknown, and no other row changes. |
| Text16.Utf16Compare | packages/contracts/src/canonical.ts:24-34 | The sign of the comparison is the lexicographic order of UTF-16 code units. |
| Text16.AtMostIsOrder | packages/contracts/src/canonical.ts:24-34 | That order is total, transitive and antisymmetric. |
| JsonLexis.UnescapeEscape | packages/contracts/src/canonical.ts:65-68 | Unescaping an escaped string gives the string back, for every string. |
| JsonLexis.ScanEscape | packages/contracts/src/canonical.ts:120-149 | Scanning an escaped string followed by a quote stops exactly at that quote, whatever follows. |
| JsonLexis.NumberEnds | packages/contracts/src/canonical.ts:221-230 | A number literal is not extended by what may follow a value. |
| CanonicalJson.PrintedIsReadable | packages/contracts/src/canonical.ts:49-98 | Whatever may follow it, the printed form of a value parses to that value as read back and leaves the rest of the text untouched. |
| CanonicalJson.ParsePrint | packages/contracts/src/canonical.ts:234-247 | Parsing the canonical text of any printable value succeeds with the value in key order. |
| CanonicalJson.RoundTripExactly | packages/contracts/src/canonical.ts:151-232 | The round trip gives the value back exactly when it holds no `__proto__` property and no negative zero. |
| CanonicalJson.PrintRead | packages/contracts/src/canonical.ts:49-98 | Printing a value read back gives the same text again. |
| CanonicalJson.ParsedIsClean | packages/contracts/src/canonical.ts:151-232 | Every parsed value has one property per key and no `__proto__` property, at every depth. |
| CanonicalJson.CanonicalizeIdempotent | packages/contracts/src/canonical.ts:249-254 | Canonicalizing the canonical text of any accepted text gives it back. |
| CanonicalJsonEquality.PrintedIsUnique | packages/contracts/src/canonical.ts:49-98 | A text that starts with a printed value starts with no other one: whatever may follow, both stop at the same place and agree up to property order and the sign of zero. |
| CanonicalJsonEquality.CanonicalTextDecides | packages/contracts/src/canonical.ts:49-98 | Two printable values have one canonical text exactly when they are the same value up to property order and the sign of zero, `__proto__` properties included. |
| CanonicalJsonCode.SkipWhitespace | packages/contracts/src/canonical.ts:108-118 | The cursor moves past exactly the leading white space. |
| CanonicalJsonCode.ScanRaw | packages/contracts/src/canonical.ts:124-148 | The scanning loop finds the string content and its closing quote as the specification does. |
| CanonicalJsonCode.ParseJsonString | packages/contracts/src/canonical.ts:120-149 | The cursor code reads the string the parsing function reads and stops where it stops. |
| CanonicalJsonCode.ParseJsonValue | packages/contracts/src/canonical.ts:151-232 | The cursor parser agrees with the parsing function on value, rest and failure, for every text and start. |
| CanonicalJsonCode.ParseObjectBody | packages/contracts/src/canonical.ts:157-187 | The member loop agrees with the parsing function, duplicate keys rejected. |
| CanonicalJsonCode.ParseArrayBody | packages/contracts/src/canonical.ts:188-208 | The item loop agrees with the parsing function. |
| CanonicalJsonCode.ParseScalar | packages/contracts/src/canonical.ts:209-231 | Strings, words and numbers agree with the parsing function. |
| CanonicalJsonCode.ParseCanonicalJsonText | packages/contracts/src/canonical.ts:234-247 | Accepts exactly one value with optional surrounding white space, and refuses a byte order mark. |
| CanonicalJsonCode.Walk | packages/contracts/src/canonical.ts:49-98 | Returns the canonical text, or nothing exactly for a value with an unpaired surrogate or, under the contract options, an unsafe integer. |
| CanonicalJsonCode.WalkFields | packages/contracts/src/canonical.ts:87-94 | Object members come out in code-unit order of their keys. |
| CanonicalJsonCode.WalkItems | packages/contracts/src/canonical.ts:77-86 | Array items come out in order. |
| CanonicalJsonCode.CanonicalizeJsonText | packages/contracts/src/canonical.ts:249-254 | Parsing followed by printing, with the failures of both. |
| CanonicalJsonCode.SignedIntegersAreACodec | packages/contracts/src/canonical.ts:36-47 | Decimal printing and reading of the integers with both zeros satisfies everything the round trip results assume of numbers. |
| CanonicalJsonCode.NegativeZeroLosesItsSign | packages/contracts/src/canonical.ts:43-45 | A failing input of the round trip: the array of one negative zero comes back with a positive one. |
| CanonicalJsonCode.ProtoIsLost | packages/contracts/src/canonical.ts:157-187 | A failing input of the round trip: an object whose one property is `__proto__` comes back empty. |
| ContextSelection.SharedNode | packages/context-compiler/src/select.ts:62-68 | A node of one bundle is a node of every bundle that lists its id. |
| ContextSelection.JaccardMeasures | packages/context-compiler/src/select.ts:114-126 | The overlap of two bundles is symmetric, between 0 and 1, and 1 exactly for equal keys. |
| ContextSelection.BestIsGreatest | packages/context-compiler/src/select.ts:279-305 | The sweep picks a candidate of greatest gain, only a positive one, and among equal gains one of smallest id. |
| ContextUtility.GainExactly | packages/context-compiler/src/select.ts:185-227 | What adding a bundle gains is the requirements it newly covers, its purpose and a quarter per new independence group, less its overlap with each bundle chosen, its mean risk and its cost, per token charged. |
| ContextUtility.RaisedRiskCosts | packages/context-compiler/src/select.ts:146-152 | Raising the risk of a node lowers the gain of every bundle by its share of the mean per token, and never raises one. |
| ContextUtility.RiskCosts | packages/context-compiler/src/select.ts:209-227 | Of two bundles alike but for risk the gains differ by exactly the difference in risk per token. |
| ContextUtility.RiskierIsNotPicked | packages/context-compiler/src/select.ts:279-299 | The riskier of two such candidates is never the one picked while the other remains. |
| ContextUtility.CoverageGains | packages/context-compiler/src/select.ts:193-202 | Newly covering one requirement gains exactly 1 if it is a must and 0.5 if not, per token. |
| ContextUtility.PurposeGains | packages/context-compiler/src/select.ts:209-215 | A causal path gains exactly 2 and counter-evidence 1 over another purpose, per token. |
| ContextUtility.WitnessGains | packages/context-compiler/src/select.ts:213-215 | A requirement witness gains 1 beside what it covers. |
| ContextUtility.GroupGains | packages/context-compiler/src/select.ts:216-226 | Each new independence group gains exactly 0.25 per token. |
| ContextUtility.GainsDiminish | packages/context-compiler/src/select.ts:185-227 | Selecting another bundle lowers the gain of each by exactly what they share, so gains never rise as the selection grows. |
| ContextUtility.UntrustedExactly | packages/context-compiler/src/select.ts:154-161 | A bundle is untrusted exactly when it lists a node of risk 0.85 or more, invalidated, or authored by a local model. |
| ContextUtility.NeverOmitExactly | packages/context-compiler/src/select.ts:35-60 | Which bundles are never omitted, by flag, purpose, or a test among their nodes beside a failing or contradicting edge. |
| ContextUtility.DuplicateExactly | packages/context-compiler/src/select.ts:163-183 | A candidate is a duplicate exactly when it shares nine tenths of the keys of some chosen bundle or a content digest with it. |
| ContextUtilityCode.CoveredRequirements | packages/context-compiler/src/select.ts:78-112 | The loops collect exactly the requirements a bundle covers. |
| ContextUtilityCode.JaccardOf | packages/context-compiler/src/select.ts:114-126 | Counting the intersection computes the overlap of the specification. |
| ContextUtilityCode.UtilityOf | packages/context-compiler/src/select.ts:185-227 | The loops compute the utility the gains are about. |
| ContextSelection.MandatoryInv | packages/context-compiler/src/select.ts:262-276 | The mandatory pass keeps cost equal to the sum of what is selected, within budget, and deals with every bundle it meets. |
| ContextSelection.GreedySettles | packages/context-compiler/src/select.ts:277-328 | The greedy pass keeps the same and settles every optional bundle. |
| ContextSelection.SelectionFits | packages/context-compiler/src/select.ts:248-345 | A selection costs no more than the budget (only an empty one can exceed a negative budget), holds only trusted bundles, and none more often than the input. |
| ContextSelection.SelectionPartitions | packages/context-compiler/src/select.ts:248-345 | The node ids of the input are exactly the selected ids and the omitted ids, and no id is both. |
| ContextSelection.OmissionsJustified | packages/context-compiler/src/select.ts:300-328 | Every bundle not selected is untrusted, or optional and a duplicate of the selection, too costly to add to it, or of no gain to it. |
| ContextSelection.SelectionIgnoresInputOrder | packages/context-compiler/src/select.ts:255-257 | With distinct bundle ids the result is the same for every order of the input. |
| ContextSelection.CapacityExactly | packages/context-compiler/src/select.ts:267-270 | A capacity result is given exactly when the trusted never-omit bundles together cost more than the budget. |
| ContextSelection.UntrustedNodeStandsOut | packages/context-compiler/src/select.ts:154-161 | An untrusted bundle has a node that no trusted bundle lists. |
| ContextSelection.GatePassesExactly | packages/context-compiler/src/serialize.ts:513-533 | No critical omission is reported exactly when every never-omit candidate was itself selected. |
| ContextSelection.DispatchedExactly | packages/context-compiler/src/index.ts:532-575 | Compilation goes on exactly when every never-omit candidate is trusted and together they fit, and then all of them are dispatched. |
| ContextSelectionCode.OmitNodes | packages/context-compiler/src/select.ts:234-246 | Appends one entry with the reason for each node id not yet selected. |
| ContextSelectionCode.SelectMandatory | packages/context-compiler/src/select.ts:262-276 | The loop computes the mandatory pass, with selected ids kept equal to the ids of the selection. |
| ContextSelectionCode.PickBest | packages/context-compiler/src/select.ts:279-299 | The loop, computing both utilities from the selection, finds the best candidate of the specification. |
| ContextSelectionCode.Decide | packages/context-compiler/src/select.ts:310-327 | The chosen candidate is selected, or recorded as untrusted, duplicate or too large, tried in that order. |
| ContextSelectionCode.SelectOptional | packages/context-compiler/src/select.ts:277-328 | The loop computes the greedy pass and ends. |
| ContextSelectionCode.UniqueOmissions | packages/context-compiler/src/select.ts:329-344 | Drops selected ids and repeated entries and keeps everything else. |
| ContextSelectionCode.SelectBundles | packages/context-compiler/src/select.ts:248-345 | The imperative selection, utilities computed by its loops, equals the specification the theorems are about. |
| ContextSelectionCode.CriticalOmissionEntries | packages/context-compiler/src/serialize.ts:513-533 | Reports, sorted, exactly the entries left out as untrusted or for want of room whose node a never-omit candidate lists. |
| ContextSelectionCode.CompileCloudContext | packages/context-compiler/src/index.ts:532-575 | Whatever it is given, what is dispatched holds every never-omit candidate and fits a budget that is not negative. |
| UnionFind.Find | packages/evidence/src/dedupe.ts:178-187 | Returns the root, compresses the path, and changes no root. |
| UnionFind.Union | packages/evidence/src/dedupe.ts:188-194 | Joins the classes of the two nodes and no others. |
| UnionFind.UnionLinked | packages/evidence/src/dedupe.ts:195-206 | After the double loop every linked pair shares a root, and nodes share a root only along a chain of links. |
| UnionFind.RootsAreClasses | packages/evidence/src/dedupe.ts:195-206 | Two nodes share a root exactly when a chain of linked pairs connects them. |
| UnionFind.GroupLinked | packages/evidence/src/dedupe.ts:177-217 | Lists every index once; two indices share a group exactly when a chain of linked pairs connects them; groups follow first members and ascend. |
| Dedupe.MergeableAlike | packages/evidence/src/dedupe.ts:86-107 | A pair any rule merges agrees on producer, generated flag, historical flag and, when generated, path. |
| Dedupe.MergeableExactly | packages/evidence/src/dedupe.ts:86-139 | Each rule joins exactly its kin, stated by fields: alike, not told apart by an overload key nor, if historical, by blob or by the commit they name, and related by blob, symbol or signature, syntax tree, one containing the other, or cloned text in one folder; and it is symmetric. |
| Dedupe.MergeSubjectsCorrect | packages/evidence/src/dedupe.ts:141-171 | Two subjects merge exactly when one has repository provenance; the result stands for the members of both and stays alike, is the subject of the smaller id otherwise, has an id that is its hash in a snapshot its own provenance names, sums up the members of both, and belongs to the snapshot both belong to. |
| Dedupe.MergeGroupCorrect | packages/evidence/src/dedupe.ts:218-225 | A group merges exactly when it is single or one of its first two subjects has repository provenance, and conserves members. |
| Dedupe.ChainAlike | packages/evidence/src/dedupe.ts:173-228 | Subjects joined by a chain of mergeable pairs are alike, however long the chain. |
| Dedupe.PassCorrect | packages/evidence/src/dedupe.ts:173-228 | A pass conserves the multiset of members, keeps every output homogeneous, and cannot fail when every subject has repository provenance; every output sums up its members and stays in the snapshot of the inputs. |
| Dedupe.UnionFindMerge | packages/evidence/src/dedupe.ts:173-228 | Subjects are grouped exactly along chains of mergeable pairs and each group becomes one subject, sorted by id. |
| Dedupe.DedupePasses | packages/evidence/src/dedupe.ts:362-407 | The result is a chain of five passes, one per rule in source order, each along the classes of its rule, or stops at the first that fails; every input subject is a member of exactly one output subject, and no output subject mixes what must stay apart. Each output has the provenance keys of all its members and no other, their least and greatest byte bounds, their greatest risk and least freshness, and where it has several an id that is its hash in a snapshot its provenance names; inputs of one snapshot give outputs of it, and same-blob subjects end in one output. |
| Dedupe.PassFailsExactly | packages/evidence/src/dedupe.ts:218-225 | A pass fails exactly when some class has two subjects or more and neither of its first two has repository provenance. |
| Dedupe.MembersNeverMix | packages/evidence/src/dedupe.ts:86-107 | Members of one output subject agree on producer, generated flag and historical flag, and generated ones on their path. |
| Dedupe.ReplacementsFrom | packages/evidence/src/dedupe.ts:347-356 | The loops compute the replacement map of the specification. |
| Dedupe.ReplacementsCorrect | packages/evidence/src/dedupe.ts:347-356 | The map has exactly the member ids as keys, and sends each to the id of an output subject it is a member of. |
| Dedupe.OriginalsSurvive | packages/evidence/src/dedupe.ts:347-356 | Every original node id leads to a node that survives. |
| Dedupe.RewrittenCorrect | packages/evidence/src/dedupe.ts:409-439 | Rewritten edges come from given ones, do not loop and repeat no id, and every edge that does not collapse is represented. |
| Dedupe.RemappedCorrect | packages/evidence/src/dedupe.ts:409-439 | Remapped edges do not loop, have distinct ids that match their hash, and join surviving nodes when the given edges joined original ones. |
| Dedupe.RemapEdges | packages/evidence/src/dedupe.ts:409-439 | The loop with its seen set computes the remapping of the specification. |
| Dedupe.DedupeEvidence | packages/evidence/src/dedupe.ts:441-451 | Subjects and edges together: conservation, homogeneity, summing up, hashes in the snapshot of the inputs, same-blob subjects together, surviving endpoints. |
| EvidenceGraph.MergeProvenanceLists | packages/evidence/src/graph.ts:116-132 | The loop keeps the first item of each key and sorts by key. |
| EvidenceGraph.MergeKeepsKeys | packages/evidence/src/graph.ts:116-132 | Merging keeps every key of both lists and invents no item. |
| EvidenceGraph.KeysDecide | packages/evidence/src/graph.ts:59-110 | Identities and git history are determined by the dedupe keys alone. |
| EvidenceGraph.MergeKeepsIdentities | packages/evidence/src/graph.ts:92-132 | The identities of a merge are the union of both sides, and so is its history. |
| EvidenceMerge.MergeNodesExactly | packages/evidence/src/graph.ts:293-331 | Two well-identified nodes of one id merge exactly when they agree on being historical; the merge keeps id, identity hash and all provenance. Within one independence group its status is invalidated if a side is, else conflicted if a side is, and verified only if both are, its risk the greatest and its freshness and reliability the least of both; across groups it is conflicted. It is a model's work exactly when a side is, the cloud's first, and a user's before a deterministic one. |
| EvidenceMerge.CleanNodesMerge | packages/evidence/src/graph.ts:293-331 | When fusion provenance never claims git history, well-identified nodes of one id always merge. |
| EvidenceMerge.FusionHistoryBlocksMerge | packages/evidence/src/graph.ts:300-304 | Without that, two well-identified nodes of one id can refuse to merge: a concrete pair. |
| EvidenceMerge.PutNodesExactly | packages/evidence/src/graph.ts:349-356 | Merging a list into a collection succeeds exactly when nodes of one id agree on history, and loses no id and no provenance; each merged node stands in status, authorship and trust as all nodes seen under its id do together. |
| EvidenceMerge.InvalidatedStaysExactly | packages/evidence/src/graph.ts:305-322 | Of two nodes one of which is invalidated, the merged node is invalidated exactly when both are of one independence group. |
| EvidenceMerge.GroupsHideInvalidation | packages/evidence/src/graph.ts:305-322 | The failing input: an invalidated node merged with one of another group comes out conflicted. |
| EvidenceMerge.PutEdgesGood | packages/evidence/src/graph.ts:333-364 | Merging edges keeps their identity hashes and endpoints, has exactly the old and new ids, loses no provenance under any id and keeps the greatest confidence. |
| EvidenceMergeCode.MergePreservesGraph | packages/evidence/src/graph.ts:344-373 | Merging good material into a valid graph succeeds exactly when history agrees, and the result passes every structural check with exactly the old and new node and edge ids and, under each, all provenance; every node stands in status, authorship and trust as those seen under its id together, and every edge has the greatest confidence. |
| EvidenceMergeCode.CleanMergeNeverFails | packages/evidence/src/graph.ts:344-373 | With clean fusion provenance a merge of good material never fails. |
| EvidenceMergeCode.MergeEvidence | packages/evidence/src/graph.ts:344-373 | Whatever it is given, a merge returns a valid graph or an error, and an error exactly when nodes clash or the merged graph is invalid. |
| EvidenceMergeCode.AssertEvidenceGraph | packages/evidence/src/graph.ts:385-427 | Finds no problem exactly in graphs with unique ids, kept provenance, matching hashes and no dangling edge. |
| Fusion.FuseCorrect | packages/evidence/src/fusion.ts:120-255 | Each id comes out once, in rank order, with weight over 60 plus rank added for its hits in order of arrival, for any division and addition, all its provenance, edges and channels, the node and key of its first hit with the greatest token count, its last lexical and dense ranks, and the first of its channels by name. |
| EvidenceGraph.HistoryIdentity | packages/evidence/src/graph.ts:67-74 | A commit and a diff have one identity exactly when they are of one commit. |
| Fusion.FusionKeepsIdentity | packages/evidence/src/fusion.ts:169-204 | Fusing leaves node id and identity hash unchanged and its own provenance never claims history. |
| Fusion.RanksIgnoreChannelOrder | packages/evidence/src/fusion.ts:152-184 | With an addition that commutes and associates, scores and ranks are the same whatever the order of the channels. |
| Fusion.PairRanksIgnoreChannelOrder | packages/evidence/src/fusion.ts:152-184 | With any addition that commutes, as that of doubles does, they are where no id is hit more than twice. |
| Fusion.ThirdHitSwapsRanks | packages/evidence/src/fusion.ts:152-184 | The failing input: under a rounding addition that commutes, two candidates with three hits each swap scores and ranks when two channels change places. |
| Fusion.FuseRankings | packages/evidence/src/fusion.ts:135-255 | The accumulating loops compute the fusion of the specification. |
| Fusion.RankOrder | packages/evidence/src/fusion.ts:235-248 | Score, identity key, channel and id together are a total order. |
| CasLock.StepKeeps | packages/cas/src/filesystem-cas.ts:349-373 | Arriving, entering and leaving keep the promise chain, the turn order and both tables right. |
| CasLock.ResolvedExactly | packages/cas/src/filesystem-cas.ts:350-362 | A promise of the chain is resolved exactly when every call of its key up to its maker has finished. |
| CasLock.MutualExclusion | packages/cas/src/filesystem-cas.ts:74-88 | In every run two bodies of one key never run at once, bodies run in order of arrival, and the entry of a key exists exactly while the key is in use. |
| CasLock.StepIsQueueStep | packages/cas/src/filesystem-cas.ts:349-373 | Every step is a step of a first-in, first-out queue per key. |
| CasLock.Progress | packages/cas/src/filesystem-cas.ts:349-373 | While a key is in use the first of its unfinished calls can always move. |
| CasLock.LockTable.BeginCall | packages/cas/src/filesystem-cas.ts:350-358 | Takes the last promise of the key and becomes the last. |
| CasLock.LockTable.EnterBody | packages/cas/src/filesystem-cas.ts:359-365 | When a body starts every earlier call of its key has finished and every later one waits. |
| CasLock.LockTable.LeaveBody | packages/cas/src/filesystem-cas.ts:366-373 | Releases the gate and drops the entry unless a later call replaced it. |
| CasStore.ReadVerified | packages/cas/src/filesystem-cas.ts:202-255 | Returns what the file is worth; a damaged file is moved to quarantine and counts as missing. |
| CasStore.SeenExactly | packages/cas/src/filesystem-cas.ts:202-255 | A file counts as damaged exactly when it is cut short or corrupt, or under a fitting key fails its tag or opens to another digest; a key that is missing, another or refused never makes it so. It is found exactly when it opens to plaintext of the digest. |
| CasStore.GetLocked | packages/cas/src/filesystem-cas.ts:187-200 | Returns plaintext exactly when the file holds plaintext of the digest asked for, and then that plaintext, changing nothing; whatever bytes are on disk, what it returns has the digest. |
| CasStore.GoodRivalTakenExactly | packages/cas/src/filesystem-cas.ts:187-200 | A good object another process installs after the read is taken away exactly when the read found nothing usable that it could move, the key unwraps and the move works, and its bytes reach quarantine exactly when no other bytes have its name there that day. |
| CasStore.Stage | packages/cas/src/filesystem-cas.ts:128-142 | A staged file opens to plaintext of the digest, or it is gone. |
| CasStore.Install | packages/cas/src/filesystem-cas.ts:447-471 | An object is installed only where none is; one that is there must verify; the incoming file is gone either way. |
| CasStore.Reuse | packages/cas/src/filesystem-cas.ts:145-160 | An object that is there is reused exactly when it is good, and then nothing changes; else it is an error and what was damaged is moved aside. |
| CasStore.StoreFresh | packages/cas/src/filesystem-cas.ts:128-185 | Staging, installing and the optional read-back: on success the object verifies. |
| CasStore.PutLocked | packages/cas/src/filesystem-cas.ts:112-185 | After a successful put a get finds plaintext of the digest, and a critical put has read it back; a good object that is there is reused unchanged, one the key cannot open is left and is an error, a damaged one goes to quarantine, where no entry is replaced. The incoming file is gone, no other object changed, and with working ciphers and no rival the put succeeds. |
| CasStore.PutThenGet | packages/cas/src/filesystem-cas.ts:74-88 | Putting bytes and getting their digest gives the bytes back. |
| CasFiles.SweepAge | packages/cas/src/gc.ts:157-169 | A folder old enough to sweep was dated by a clock reading more than 29 days ago, and one of 30 days ago is old enough. |
| CasFiles.Store.MoveToQuarantine | packages/cas/src/gc.ts:48-83 | Links or copies before it unlinks, so at every step of an undisturbed move a digest leaving the store has a quarantine entry; no other object is touched and no entry overwritten. |
| CasFiles.Store.MarkUnreachable | packages/cas/src/gc.ts:117-136 | At every step of an undisturbed pass reachable and forbidden objects are in place and unchanged; at the end nothing else is left and each object moved is in the dated folder. |
| CasFiles.Store.SweepQuarantine | packages/cas/src/gc.ts:138-182 | An undisturbed pass removes exactly the quarantine entries that are old enough and answered not forbidden, file by file. |
| CasFiles.SweepExactly | packages/cas/src/gc.ts:157-181 | An entry survives exactly when it is forbidden or too young; a swept one is more than 29 days past the reading that dated its folder. |
| CasFiles.MarkedObjectsRecoverable | packages/cas/src/gc.ts:48-182 | An object marked at one clock reading has an entry after any sweep of the next 29 days, and the entry holds its bytes exactly when that day's folder held none of its name before, or one with the same bytes. |
| CasFiles.DamagedEntryKeepsItsPlace | packages/cas/src/gc.ts:58-66 | The losing input: a damaged copy was moved aside earlier that day, so marking the object put again drops its good bytes at once. |
| CasCollector.StepKeeps | packages/cas/src/gc.ts:48-182 | Beside installs, gets and other collectors, every step keeps: a mover past its link has its entry unless some sweep has found the mover's folder old enough. |
| CasCollector.ObjectsLeaveJustified | packages/cas/src/gc.ts:117-136 | In every interleaved run an object leaves the store only by a mover that linked it; a marking run had it unreachable and was answered not forbidden at its own last check; and its entry is there at that moment unless some sweep has found the mover's folder old enough. |
| CasCollector.EntryThereFor29Days | packages/cas/src/gc.ts:48-182 | Its entry is there at that moment when every sweep so far read a clock no more than 29 days past the mover's reading. |
| CasCollector.EntryHoldsExactly | packages/cas/src/gc.ts:48-83 | In every interleaved run, while no sweep has found the folder old enough, the entry of an object that leaves holds its bytes exactly when the entry the mover's last link found or made held them; where the object was not replaced since, exactly when the folder then held no entry of its name or one with the same bytes. |
| CasCollector.ReplacedObjectLost | packages/cas/src/gc.ts:57-66 | The losing run: a get moves the object aside and a put installs it anew between a mark's link and its unlink, which drops the new bytes. |
| CasCollector.EntriesLeaveJustified | packages/cas/src/gc.ts:138-182 | In every interleaved run an entry leaves quarantine only by a sweep whose reading is 30 days past its folder and which was answered not forbidden at its own last check. |
| CasCollector.NothingOverwritten | packages/cas/src/gc.ts:48-83 | No step of any actor changes the bytes of a file. |
| CasCollector.StalledMarkLosesObject | packages/cas/src/gc.ts:57-59 | The bound is exact: for all readings, one sweep that finds the folder of a mark stalled between link and unlink old enough can take its entry, and the object is nowhere. |
| CasIncoming.StepKeeps | packages/cas/src/gc.ts:193-235 | Names past the protection check stay unprotected and names past the stat stay old, whatever puts and sweeps do in between. |
| CasIncoming.SweepSparesInFlight | packages/cas/src/gc.ts:193-235 | In every run a sweep unlinks only names not in flight at that moment, written at least an hour before it read the clock. |
| CasIncoming.EndedSweepLeavesNothingStale | packages/cas/src/gc.ts:193-236 | A sweep that has ended has left no stale file: one listed, an hour old at its reading and not protected since is gone, whatever ran beside it. |
| CasIncoming.InFlightFilesStay | packages/cas/src/filesystem-cas.ts:284-307 | A protected incoming file disappears only by the hand of its own put. |
| Utf8.TextSurvivesExactly | packages/cas/src/integrity.ts:131-131 | Text written as UTF-8 and read back is unchanged exactly when no surrogate in it is unpaired. |
| Utf8.BytesSurviveExactly | packages/cas/src/integrity.ts:173-173 | Bytes read as UTF-8 text and written again are unchanged exactly when they are well formed. |
| BlobCodec.EncodeBlob | packages/cas/src/integrity.ts:124-151 | The header buffer is filled to exactly the envelope of the specification, the key id as UTF-8. |
| BlobCodec.ParseBlob | packages/cas/src/integrity.ts:153-197 | The offset code agrees with the parsing function on every byte string. |
| BlobCodec.ParseUndoesEncode | packages/cas/src/integrity.ts:124-197 | Parsing undoes encoding for every algorithm, key id without an unpaired surrogate, matching nonce, additional data and ciphertext with a tag. |
| BlobCodec.EncodeUndoesParse | packages/cas/src/integrity.ts:153-197 | Re-encoding a parsed blob gives back the same bytes exactly when the key id bytes are well-formed UTF-8. |
| BlobCodec.RoundTripExactly | packages/cas/src/integrity.ts:124-197 | Of the blobs that encode, exactly those with the nonce length of their algorithm, a full tag and no unpaired surrogate in the key id come back. |
| BlobCodec.SurrogateKeyIdChanges | packages/cas/src/integrity.ts:131-131 | A failing input: a key id of one unpaired surrogate comes back as the replacement character. |
| BlobCodec.IllFormedKeyIdReencodes | packages/cas/src/integrity.ts:173-173 | A failing input: a key id of the byte FF parses and re-encodes as three other bytes. |
| BlobCodec.ShortNonceChanges | packages/cas/src/integrity.ts:137-150 | A failing input: a nonce one byte short does not come back. |
| CycleCheck.HasCycle | packages/domain/src/profile-compiler.ts:1236-1261 | Answers true exactly when the dependencies contain a cycle. |
| CycleCheck.CycleSearch.Visit | packages/domain/src/profile-compiler.ts:1240-1259 | A visit that answers false leaves the node and all it reaches listed after their dependencies; one that answers true has found a cycle. |
| ProfileGraph.AddedKeeps | packages/domain/src/profile-compiler.ts:546-558 | Adding a node keeps ids unique, adds exactly that id and keeps the kind of every node. |
| ProfileGraph.AddedExactly | packages/domain/src/profile-compiler.ts:546-558 | Adding changes only the node of that id: merged if it is known, with the dependencies and invalidations of both and its own condition unless it had none, and else the node itself. |
| ProfileGraph.RemovedKeeps | packages/domain/src/profile-compiler.ts:560-567 | Removing a node leaves neither it nor any reference to it, and nothing else is lost. |
| ProfileGraph.AttachedPrecedes | packages/domain/src/profile-compiler.ts:573-583 | Acceptance waits for a node attached before it. |
| ProfileGraph.AttachedTakesOver | packages/domain/src/profile-compiler.ts:573-583 | A new node attached before acceptance waits for exactly what acceptance waited for, where that was anything, and else for its own dependencies. |
| ProfileCompiler.GraphState.AddNode | packages/domain/src/profile-compiler.ts:546-558 | A known id is merged into, a new one appended with its provenance; provenance stays keyed by exactly the node ids. |
| ProfileCompiler.GraphState.RemoveNode | packages/domain/src/profile-compiler.ts:560-567 | Node, references and provenance go together. |
| ProfileCompiler.GraphState.AttachBeforeAcceptance | packages/domain/src/profile-compiler.ts:573-583 | The new node takes the dependencies of acceptance and acceptance depends on it. |
| ProfileCompiler.GraphState.ApplyOverlay | packages/domain/src/profile-compiler.ts:965-1091 | No overlay adds a writer; each adds exactly its nodes with its provenance, its gate stands before acceptance, and only the emergency one removes nodes, of the two deferrable operations. |
| ProfileCompiler.GraphState.AttachPackNodes | packages/domain/src/profile-compiler.ts:1218-1234 | Resolved packs make sure that what is implemented is verified, and add nothing else. |
| ProfileCompiler.GraphState.ApplyDelivery | packages/domain/src/profile-compiler.ts:1093-1146 | Analysis-only leaves exactly the nodes that cannot write; a runbook exactly those that do not implement; a mitigation waits for rollback evidence; no other delivery changes the graph. |
| ProfileCompiler.GraphState.ApplyBudget | packages/domain/src/profile-compiler.ts:1148-1216 | No budget brings a writer back; the fast one drops planning, keeps one investigator and implements from it; the thorough one has every plan criticised. |
| ProfileCompiler.GraphState.RemoveAll | packages/domain/src/profile-compiler.ts:1096-1100 | Removing while walking a copy removes exactly the doomed nodes. |
| ProfileCompiler.Finish | packages/domain/src/profile-compiler.ts:1349-1373 | Rejected exactly for a cycle, or else exactly for more than 96 nodes; otherwise sound. |
| ProfileCompiler.CompileRunComposition | packages/domain/src/profile-compiler.ts:1331-1373 | Compiles to the rewriting of the composition as a function, refused exactly for a cycle or else for more than 96 nodes; what is returned is sound and honours its composition. Analysis-only has no writer, a runbook no implementer, a mitigation defers the specification gate, the fast budget has one investigator, which the implementer waits for alone, and no planning, and the thorough one criticises every plan. |
| ProfileCompose.ComposedKeeps | packages/domain/src/profile-compiler.ts:1331-1348 | For every composition and id: a proposed node of a kind that no overlay, delivery or budget asked for takes away is in the graph, with the provenance of the intent if that proposed it, and if it is an overlay's gate acceptance waits for it; and nothing is in the graph that was neither proposed nor added by packs, delivery or budget. |
| ProfileCompose.CheckedHonours | packages/domain/src/profile-compiler.ts:1349-1373 | The same holds of the compiled profile after unresolved dependencies are dropped. |
| ProfileCompiler.Plan | packages/domain/src/profile-compiler.ts:1335-1345 | Intent, secondary intents and overlays give the plan of the specification. |
| ProfileCompiler.Tailor | packages/domain/src/profile-compiler.ts:1346-1348 | Packs, delivery and budget, in that order, with what each promises still true at the end. |
| ProfileCompiler.CompiledProfileSticksExactly | packages/domain/src/profile-compiler.ts:1331-1373 | On a compiled profile, whatever the state of its nodes, the scheduler is silently stuck exactly when nothing is active or ready while one node failed and another waits to retry. |
| ProfileCompiler.CompiledRunsNeverStick | packages/domain/src/profile-compiler.ts:1331-1373 | No run of a compiled profile is ever silently stuck. |
| DagEngine.ReadyNodes | packages/domain/src/dag-engine.ts:72-95 | On every well-formed cursor the list is the profile, in its order, restricted to the nodes that are enabled, pending or waiting to retry, with every dependency recorded as accepted and, for a writer, no writer recorded as spawned, waiting or validating; in every case it equals the specification, and fails where a lookup fails. |
| DagEngine.StuckExactly | packages/domain/src/dag-engine.ts:52-153 | On every acyclic resolved profile with disabled nodes accepted a run is complete, unrecoverable, live or stuck, and stuck exactly when nothing is active or ready while one enabled node failed and another waits to retry. |
| DagEngine.RetryingDependentSticks | packages/domain/src/dag-engine.ts:117-153 | The failing input: a failed node and a dependent that waits to retry. |
| DagEngine.NoSilentDeadlock | packages/domain/src/dag-engine.ts:52-153 | When every node waiting to retry has its dependencies accepted exactly one holds: complete, unrecoverable, or some enabled node is active or can start. |
| DagEngine.StuckIsCyclic | packages/domain/src/dag-engine.ts:72-153 | A stuck run without a failed node has a cyclic profile. |
| DagEngine.BatchKeepsSingleWriterExactly | packages/domain/src/dag-engine.ts:72-95 | Starting all ready nodes keeps at most one active writer exactly when at most one was active and at most one writer is ready. |
| DagEngine.TwoReadyWritersBothStart | packages/domain/src/dag-engine.ts:72-95 | The failing input: two writers without dependencies are both ready in the first round. |
| DagEngine.OneStartKeepsSingleWriter | packages/domain/src/dag-engine.ts:72-95 | Starting ready nodes one at a time always keeps at most one active writer. |
| DagEngine.SkippingDisablesNothingElse | packages/agent-runtime/src/orchestrator.ts:54-62 | Accepting the skipped nodes establishes what the deadlock results ask of disabled nodes. |
| DagEngine.DisabledDependencyDeadlocks | packages/domain/src/dag-engine.ts:72-104 | Without that step the promise fails: a concrete stuck cursor. |
| DagRuns.StepKeepsOrderly | packages/domain/src/node-reducer.ts:4-42 | Rounds of the orchestrator, reducer events, added predicates, direct retries of failed nodes and finished jobs keep: a node has begun only when it is enabled and its dependencies are accepted. |
| DagRuns.EventMoves | packages/domain/src/node-reducer.ts:4-42 | An event moves its node alone, to accepted or failed exactly when it says so. |
| DagRuns.StartableForever | faex1/apps/control-plane/src/services/agent-jobs.ts:215-238 | A node that is enabled with its dependencies accepted stays so in every later state of a run, so a queued job finishes for such a node. |
| DagRuns.InitialOrderly | packages/domain/src/dag-engine.ts:24-30 | The initial records of any resolved profile satisfy it. |
| DagRuns.RunsNeverStick | packages/agent-runtime/src/orchestrator.ts:49-134 | In every state of every run on an acyclic profile, predicates growing and failed nodes retried on the way, once disabled nodes are accepted exactly one holds: complete, unrecoverable, or some enabled node is active or can start. |
| ShardOrder.Order | packages/domain/src/integration.ts:58-75 | A list of every shard id once with in-set dependencies first, or a failure exactly when the in-set dependencies are cyclic. |
| ShardOrder.LayeredOrderCorrect | packages/domain/src/integration.ts:58-75 | The layered order lists every id after its dependencies, and exists exactly without a cycle. |
| ShardOrder.OrderIgnoresInputOrder | packages/domain/src/integration.ts:58-75 | With distinct ids every input order gives the same list. |
| SkillClosure.CloseDependencies | packages/instructions/src/skill-resolver.ts:143-196 | Lists dependencies first and apart from the flagged; every reachable skill is listed or flagged, some skill of every reachable cycle is flagged, nothing is flagged exactly when no cycle is reachable, every reported cycle is real and flags are exactly what is reported; and it equals the walk as a function. |
| SkillClosure.FlagsExactly | packages/instructions/src/skill-resolver.ts:154-180 | Nothing is flagged exactly when no cycle can be reached from the roots. |
| SkillClosure.FlagsAllOnCycles | packages/instructions/src/skill-resolver.ts:154-180 | Where no reachable skill is on two cycles, exactly the skills on reachable cycles are flagged. |
| SkillClosure.SharedCycleStaysListed | packages/instructions/src/skill-resolver.ts:154-190 | The failing input: of two cycles that share a skill, the second is met when that skill is already flagged, and its own skill stays listed. |
| SkillClosure.OverlapMayBeFlagged | packages/instructions/src/skill-resolver.ts:154-190 | Overlap is not sufficient for that: a skill on two cycles with everything flagged. |
| SkillClosure.Closure.Visit | packages/instructions/src/skill-resolver.ts:153-190 | A visit ends with the skill visited or flagged and keeps the order, the stack and the reports right. |
| Poly1305.ReadLe | faex1/deploy/backup/restic-aead.ts:165-179 | The shifting loop reads the little-endian number of the first bytes, zero padded. |
| Poly1305.PolynomialSnoc | faex1/deploy/backup/restic-aead.ts:150-156 | The polynomial of one more block is one Horner step. |
| Poly1305.HornerStep | faex1/deploy/backup/restic-aead.ts:150-156 | One turn of the loop reduces the polynomial of one more padded block modulo 2^130-5. |
| Poly1305.Authenticate | faex1/deploy/backup/restic-aead.ts:146-163 | The loop returns the tag of the specification for every key and message. |
| Poly1305.TagDecodes | faex1/deploy/backup/restic-aead.ts:157-162 | The tag is sixteen bytes that decode to the polynomial modulo 2^130-5 plus s, modulo 2^128. |
| Poly1305.OpenUndoesSeal | faex1/deploy/backup/restic-aead.ts:25-44 | Opening undoes sealing for every key, nonce and plaintext when the stream cipher is an involution. |
| Poly1305.SealUndoesOpen | faex1/deploy/backup/restic-aead.ts:32-44 | Whatever opens is a sealing of what it opens to. |
| CivilDate.DayNumberCounts | native/runner/src/config.rs:225-242 | The reference day number starts at the epoch and each next calendar day adds one. |
| CivilDate.YearOfEraCorrect | native/runner/src/config.rs:231-236 | The division formula finds the year and day the calendar defines. |
| CivilDate.DateOfDay | native/runner/src/config.rs:225-242 | Every day from the epoch becomes a valid date whose day number is that day. |
| CivilDate.NoUnderflow | native/runner/src/config.rs:231-241 | No unsigned subtraction of the conversion underflows. |
| CivilDate.ConvertsEveryInstant | native/runner/src/config.rs:218-242 | For every u64 of milliseconds no cast loses a bit, the date is valid, and day number and time of day are those of the input. |
| CivilDate.DayNumberMonotone | native/runner/src/config.rs:225-242 | Calendar order is day-number order. |
| CivilDate.TimestampsOrderAsInstants | native/runner/src/config.rs:218-223 | Up to the year 9999 the texts order as the instants do and differ exactly when they do. |
| CivilDate.OrderBreaksAt10000 | native/runner/src/config.rs:218-223 | The bound is exact: the first text of the year 10000 sorts before the last one of 9999. |
| CivilDate.FourDigitYears | native/runner/src/config.rs:225-242 | A date has a four-digit year exactly before the first day of the year 10000. |

## Left out

- Sqlite, fsync, TLS, HTTP, named pipes and DPAPI: committed rows are taken to be durable and one process to hold the store.
- The internals of AES, XChaCha20, SHA-256 and Ed25519, and the key generation and clamping of the backup container.
- Printing and reading of non-integer numbers, and floating-point rounding of utilities.
- `walk` on values outside JSON (undefined, functions, class instances, cycles): the model's values are JSON trees, so the
  visited set of the printer is not modelled.
- Schema validation of evidence graphs and deltas, and of ids and digests: only the structural checks are modelled.
- Overload keys, blob digests and commits of deduplicated subjects: an empty value bridges them, so no claim is made that
  they stay apart.
- Reranker features derived from a fused node, and the packet rendering, token accounting and cache prefix of the context
  compiler.
- Storage records and their sink: a put is followed to the installed object only.
- Outbox.CallOnce: one call, not interrupted and without store errors; interleaved calls, store errors and crashes are the
  step system of the same file.
- Outbox.FinishCall: as `Outbox.CallOnce`.
- CasStore.GetLocked: one foreign installation is allowed, before the second look at the path; the collector does not
  interleave.
- CasStore.PutLocked: the lock excludes puts and gets of the key but not the collector, which takes no lock and may move the
  object aside before the put returns; the contract is about a put without one. One foreign installation is allowed before
  the object is linked. What a collector may do beside puts is in `CasCollector.ObjectsLeaveJustified`.
- CasStore.PutThenGet: no collector runs between the put and the get.
- CasFiles.Store.MoveToQuarantine: one move without another actor between link and unlink; `CasCollector.dfy` interleaves them.
- CasFiles.Store.MarkUnreachable: one pass without another actor; `CasCollector.dfy` interleaves passes, puts and gets.
- CasFiles.Store.SweepQuarantine: as `CasFiles.Store.MarkUnreachable`.
- CasCollector.ObjectsLeaveJustified: an exclusive copy counts as one step, and a put that finds its object already there is
  not protected from a mark that checked before; what is said about bytes is `CasCollector.EntryHoldsExactly`.
- CasFiles.SweepAge: a folder name with a day past the end of its month runs over into the next month, as the JavaScript
  engine parses it.
- CasIncoming.SweepSparesInFlight: takes random names to be fresh, and one process: the protected names are a field of the
  store object, so a sweep in another process does not see them.
- CasIncoming.EndedSweepLeavesNothingStale: an unlink that finds its file gone is passed over, where the source's sweep ends
  with an error; such a sweep has not ended in the sense of the lemma.
- ProfileCompiler.CompileRunComposition: the catalogue of fragments is any node list, so nothing is said about which nodes a
  particular intent has; labels, artifact lists and policies of the compiled profile are not modelled.
- DagEngine.NoSilentDeadlock: asks for disabled nodes to be accepted first, as the orchestrator does;
  `DagEngine.DisabledDependencyDeadlocks` shows that this is needed.
- DagRuns.RunsNeverStick: `invalidateNodes`, which nothing in the repository calls, is not a step; the profile stays the
  same during a run; attempt counters, agents and artifacts are not modelled, and a round may settle each ready node in any
  way. A finished job is one for a node that may start, as it could when the job was queued (`DagRuns.StartableForever`).
- SkillClosure.FlagsAllOnCycles: one direction; which skills of overlapping cycles are flagged depends on the order of the
  walk, which `SkillClosure.Walked` gives as a function.
- Retry bounds, the run reducer and YAML parsing.
