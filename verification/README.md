# Verified core of the collaboration contracts and the release contract

A Dafny model of the parts of ContextDesk that decide things: the wire contracts
under `collab/contracts/src` (together with the server steps that drive them) and
the release contract under `scripts/release-contract`. Each module models one
component; pure contract code is modelled by functions, code that works by
updating maps, sets, files or a store is modelled by methods with loops and by
classes, and each method is tied to a specification whose meaning is then proved.

- **Coordination** (`Coordination`, `CoordinationRuns`, `CoordinationDecisions`): one coordinator slot per
  investigation with compare-and-swap revisions and durable replay. The evaluator
  and the three response parsers are proved to describe the same protocol, whole
  runs of the service by any number of actors are proved to form one chain, and each
  answer is read off the recorded row, the membership and the request.
- **Release contract** (`ReleaseChecksums`, `ReleaseBundle`, `ReleaseVerify`,
  `ReleaseUpload`, `ReleaseStore`): assembling a bundle, verifying it, resuming an
  upload, and the draft-to-published store.
- **Run judgments** (`PlainData`, `RunJudgment`): the depth-first gate over an
  arbitrary object graph, canonical evidence links and idempotency intents.
- **Evidence labels** (`EvidenceLabels`, `ArtifactAnnotation`, `LabelMutations`): the
  projection of an append-only label history whose sequences are unique only per lane,
  and every run of the requests that write it.
- **Locators and the activity feed** (`Strings`, `FormUrl`, `ResourceLocator`,
  `LocatorPaths`, `CompactLocator`, `ActivityItem`, `ActivityBrowser`,
  `ActivityFeed`): pathname derivation, compact locators, the browser's own copy of
  the contract, and cursor paging.
- **Lifecycle** (`Lifecycle`, `LifecycleRuns`): archive and restore over recorded
  history.
- **Corpus intake** (`CorpusIntake`): the transport size bound.
- **Bench agreement** (`BenchAgreement`): who cites which evidence.

`Wrappers`, `Ordering`, `Text` and `Strings` hold shared vocabulary. Digests, text
normalisation, clocks, collation and the renderers of generated files are function
parameters, so every theorem holds for any of them that meets the stated
assumption (for example, digests are lower-case hexadecimal, or the normaliser
leaves its own output alone).

## What the proofs found

- A success reply cannot be parsed once the revision reaches 2^53 - 1: the service
  then throws and writes nothing. That is the only input on which its own checks
  fail (`CoordinationRuns.StepThrowsExactly`).
- A refusal for a participant who could not be loaded is not wire-valid if that
  participant holds the slot of an unarchived investigation. The service's loading
  rule never produces it (`Coordination.UnloadedTargetRefusal`).
- A replay is answered only while the actor may still see the case; afterwards the
  answer is "not found" and the state is unchanged
  (`CoordinationRuns.ReplayReturnsOriginal`).
- Bundle verification never compares the manifest file's own digest
  (`ReleaseVerify.ManifestFileUnchecked`); everything else is compared
  (`ReleaseVerify.VerifiedExact`). The checksum file survives its round trip exactly
  when no asset name holds a line boundary or a separator
  (`ReleaseChecksums.ReadUndoesWrite`).
- The frozen copy of a judgment loses own `__proto__` keys and hidden properties of
  objects and number keys beyond an array's indices, and throws on an array without a
  prototype and on a key that a copied `__proto__` already has, although the gate
  admits all of these. It is faithful exactly when nothing reachable is of those kinds
  (`PlainData.CopyFaithful`). The parsers of the same file copy only records they have
  rebuilt from literals, which are of none of them.
- The label projection depends on delivery order exactly when some label has an add
  and a remove tied at its highest sequence in a lane and is not surely live in
  another (`EvidenceLabels.OrderExact`). Lane-unique sequences rule that out.
- Restore returns an investigation to its old status exactly when a working status was
  recorded since the start or the start's own history names its status
  (`LifecycleRuns.TargetIsLastWorking`). A portable import inserts a case with its
  status but writes no status into its imported history, so an imported `monitoring`
  or `resolved` case comes back as `open` (`LifecycleRuns.ImportedComesBackOpen`).
  The contract promises that a legal hold never stops a restore, and it does not; the
  server's resolution guard, however, can stop a restore to `resolved`
  (`LifecycleRuns.HoldStopsArchiveOnly`).
- The HTTP body limit covers every accepted intake request within the byte allowance
  exactly when media types are written in at most 455 bytes each
  (`CorpusIntake.MediaBudgetExact`). The parser admits 128 characters, which take up to
  384 bytes unescaped and 768 escaped.
- The caps on an archive and on a file compare encoded lengths, so they admit one byte
  more than the byte limit they are made from (`CorpusIntake.CapExact`).
- The browser takes any opaque token as a next cursor where the server decodes it; that
  is the only difference between the pages they accept (`ActivityBrowser.PageAgrees`).
- The browser's `derivePathname` leaves the investigation id unchecked where the
  server's checks it; its caller does check, so the accepted locators are the same
  (`ActivityBrowser.LocatorAgrees`).

## Model

| member | source | states |
|---|---|---|
| `Coordination.ChangedExact` | collab/contracts/src/investigation-coordination.ts:523-563 | A changed reply passes its parser and the caller's context check if and only if its parts are readable and some eligibility of actor and target makes the evaluator answer "changed" on the carried state. |
| `Coordination.RefusedExact` | collab/contracts/src/investigation-coordination.ts:565-647 | The same for refusals, both directions, with a normalisable detail, for every reason but an intent mismatch. |
| `Coordination.SuccessExact` | collab/contracts/src/investigation-coordination.ts:460-521 | A success reply is accepted in context if and only if its parts are readable, a previous coordinator comes with a previous revision, and the evaluator allows the action on the recorded previous state with exactly the recorded new holder, actor and next revision. |
| `Coordination.UnloadedTargetRefusal` | collab/contracts/src/investigation-coordination.ts:696-737 | With an unloaded target the evaluator always refuses, and that refusal is wire-valid if and only if the investigation is archived or not held by the requested participant. |
| `CoordinationRuns.RunIsChained` | collab/server/src/modules/cases/service.ts:1061-1215 | In every run from a fresh investigation the revision counts the applied actions, and each success starts from the revision and coordinator the preceding success left. |
| `CoordinationRuns.FreshRevisionsIncrease` | collab/contracts/src/investigation-coordination.ts:689-756 | Fresh successes carry strictly increasing expected revisions, so at most one request per expected revision is applied. |
| `CoordinationRuns.ReplayReturnsOriginal` | collab/contracts/src/investigation-coordination.ts:740-756 | Once a key was answered by a success, later requests with it never change state, and get that very success if and only if the intent is the same and the actor still sees the case, whatever happened in between. |
| `CoordinationRuns.StepThrowsExactly` | collab/server/src/modules/cases/service.ts:1061-1215 | On a sound state the service's own checks fail if and only if an action would be applied at the last safe revision, and every step keeps the state sound. |
| `CoordinationRuns.FreshThrowsExactly` | collab/contracts/src/investigation-coordination.ts:56-71 | The reply to a fresh request passes its parser except there, and satisfies the response-context rules of its caller. |
| `CoordinationRuns.RunNeverThrows` | collab/server/src/modules/cases/service.ts:1061-1215 | A whole run of well-formed events that stays below the last safe revision contains no server error. |
| `CoordinationDecisions.ClaimDecision` | collab/server/src/modules/cases/service.ts:1061-1215 | A claim of a vacant slot by a member is granted at the recorded revision and stale at any other, and the holder is that member under the recorded username; a non-member is refused as not eligible, and a held slot as already held or occupied. |
| `CoordinationDecisions.AssignDecision` | collab/server/src/modules/cases/service.ts:1061-1215 | An assignment to a member who is not the holder is granted at the recorded revision under the recorded username and stale at any other; the holder is refused as already coordinator, anyone else as not eligible. |
| `CoordinationDecisions.ReleaseSelfDecision` | collab/server/src/modules/cases/service.ts:1061-1215 | Giving the slot up is granted, at the recorded revision, if and only if the actor holds it, member or not. |
| `CoordinationDecisions.ReleaseOtherDecision` | collab/server/src/modules/cases/service.ts:1061-1215 | Releasing a participant is granted, at the recorded revision, if and only if that participant holds the slot, even after leaving. |
| `CoordinationDecisions.ArchivedDecision` | collab/contracts/src/investigation-coordination.ts:696-737 | Every fresh request on an archived investigation is refused as archived and changes nothing. |
| `CoordinationDecisions.UsedKeyDecision` | collab/server/src/modules/cases/service.ts:1071-1098 | A used key with the same action and target replays the stored success; with any other it is refused as an intent mismatch; neither changes anything. |
| `CoordinationDecisions.VisibilityDecision` | collab/server/src/modules/cases/service.ts:1067-1071 | The case is not found if and only if the actor is neither administrator nor member. |
| `CoordinationDecisions.StartsSound` | collab/server/src/modules/cases/service.ts:1061-1215 | A new investigation is vacant at revision zero and meets the assumptions of the run theorems. |
| `CoordinationDecisions.ProjectionExact` | collab/contracts/src/investigation-coordination.ts:368-407 | A projection is readable if and only if its revision is safe, its texts are exact, and its history fields are all absent at revision zero and present with an offset instant after it; only the clock text is rewritten. |
| `CoordinationDecisions.TargetExact` | collab/contracts/src/investigation-coordination.ts:304-318 | A target is named if and only if the action is on a participant, and then in exact wire text. |
| `PlainData.AssertPlainDataTree` | collab/contracts/src/external-run-judgment.ts:312-371 | The walk terminates on every finite heap, restores the shared ancestor set on both outcomes, and decides acceptance relative to the ancestors it was given. |
| `PlainData.IsPlainData` | collab/contracts/src/external-run-judgment.ts:312-371 | Started with no ancestors it returns the acceptance of the root. |
| `PlainData.AcceptsExact` | collab/contracts/src/external-run-judgment.ts:312-371 | A root is accepted if and only if every reachable object is plain data (standard prototype or none, no symbols, data properties only; arrays without holes and with no further keys but decimal numerals) and none lies on a cycle; sharing is allowed. |
| `PlainData.CheckNode` | collab/contracts/src/external-run-judgment.ts:324-349 | Admits a node exactly when its prototype is the expected one or none, it has no symbol keys, and an array has no holes and no keys but numbers. |
| `PlainData.CopyFaithful` | collab/contracts/src/external-run-judgment.ts:373-385 | The frozen copy of an accepted object exists and shows, along every path of own properties, what the heap shows, if and only if no reachable object has a hidden or `__proto__` property and every reachable array has its prototype and no stray number key. |
| `PlainData.ProtoKeyLost` | collab/contracts/src/external-run-judgment.ts:377-381 | An accepted object with an own `__proto__` primitive is copied without that key and with its neighbour. |
| `PlainData.HiddenLost` | collab/contracts/src/external-run-judgment.ts:377-381 | An accepted object with a property that is not enumerable is copied without it and with its neighbour. |
| `PlainData.StrayLost` | collab/contracts/src/external-run-judgment.ts:374-376 | An accepted array with a number key beyond every index is not copied faithfully. |
| `PlainData.BareArrayThrows` | collab/contracts/src/external-run-judgment.ts:374-376 | An accepted array without a prototype has no copy: copying throws. |
| `PlainData.ThrowsExactly` | collab/contracts/src/external-run-judgment.ts:377-382 | Given copies of all an object shows, copying it throws if and only if it shows, after an own `__proto__` object, a key that this object passes on read-only. |
| `PlainData.LockedExact` | collab/contracts/src/external-run-judgment.ts:373-385 | What a frozen copy passes on read-only is what the heap object shows: an array its indices and length, an object its keys and those along its own `__proto__` objects. |
| `PlainData.FrozenPrototypeThrows` | collab/contracts/src/external-run-judgment.ts:377-382 | A two-object heap that the gate accepts and whose copying throws that way. |
| `RunJudgment.ParseLinks` | collab/contracts/src/external-run-judgment.ts:534-570 | Accepts a link list if and only if it has at most 64 entries of the three kinds with UUID ids, each before the next by kind and then id at the first differing character, and returns it unchanged. |
| `RunJudgment.HasNoDuplicates` | collab/contracts/src/external-run-judgment.ts:534-570 | The text-keyed duplicate scan answers true if and only if the links are pairwise distinct. |
| `RunJudgment.KeyInjective` | collab/contracts/src/external-run-judgment.ts:534-570 | Well-formed links with the same key text are equal. |
| `RunJudgment.OneWireForm` | collab/contracts/src/external-run-judgment.ts:528-570 | Every admissible set of links has exactly one accepted list. |
| `Ordering.LexByFirstDifference` | collab/contracts/src/external-run-judgment.ts:528-532 | The text order puts a before b if and only if, at the first difference, a ends or has the smaller character. |
| `RunJudgment.ParseRequest` | collab/contracts/src/external-run-judgment.ts:634-651 | Accepts exactly the well-formed requests and changes nothing but the normalised rationale. |
| `RunJudgment.ProjectIntent` | collab/contracts/src/external-run-judgment.ts:760-772 | Projects an intent for exactly the accepted requests. |
| `RunJudgment.SameIntent` | collab/contracts/src/external-run-judgment.ts:760-772 | Two accepted requests have equal intents if and only if case, run, judgment, normalised rationale and link sets agree, whatever their key and expected sequence. |
| `EvidenceLabels.ProjectEvidenceLabels` | collab/contracts/src/evidence-labels.ts:46-57 | The result lists exactly the labels left active by replaying the events in sequence order, by artifact and then label, each at the first differing character. |
| `EvidenceLabels.DecidedByLast` | collab/contracts/src/evidence-labels.ts:46-57 | In every history, ties or not, a key is active if and only if, of its events with the highest sequence, the one delivered last is an add. |
| `EvidenceLabels.ActiveExact` | collab/contracts/src/evidence-labels.ts:46-57 | With lane-unique sequences a key is active if and only if its highest-sequence event is an add. |
| `EvidenceLabels.ProjectedExact` | collab/contracts/src/evidence-labels.ts:46-57 | A label is listed for an artifact if and only if it is live in some privacy lane. |
| `EvidenceLabels.OrderIrrelevant` | collab/contracts/src/artifact-annotation.ts:90-94 | Every permutation of a lane-unique history projects to the same labels. |
| `EvidenceLabels.KeysOrderExact` | collab/contracts/src/evidence-labels.ts:46-57 | Every permutation of a history leaves the same active keys if and only if no key has both an add and a remove at its highest sequence. |
| `EvidenceLabels.OrderExact` | collab/contracts/src/evidence-labels.ts:46-57 | Every permutation of a history projects to the same labels if and only if every label with such a tie in one lane is surely live in some lane. |
| `EvidenceLabels.OrderMattersOnTies` | collab/contracts/src/evidence-labels.ts:46-57 | An add and a remove of one label with the same sequence, alone in the history, project differently in the two delivery orders. |
| `EvidenceLabels.LaneDecidesAlone` | collab/contracts/src/evidence-labels.ts:45-57 | In every history a key is active in its own lane's rows if and only if it is active in the whole history, and never in the other lane's: events of the other lane never change it. |
| `EvidenceLabels.LanesUnite` | collab/contracts/src/evidence-labels.ts:45-57 | In every history the full projection is the union of the two lane projections. |
| `EvidenceLabels.LaneProjection` | collab/contracts/src/evidence-labels.ts:45-57 | In a lane-unique history one lane's projection lists exactly the labels whose highest-sequence event in that lane is an add. |
| `EvidenceLabels.AppendIsSetUpdate` | collab/contracts/src/evidence-labels.ts:45-57 | In every history, appending above the lane's maximum inserts or deletes exactly that label in that lane and nothing else in either lane. |
| `LabelMutations.ApplyMutation` | collab/server/src/modules/cases/service.ts:1898-1946 | Succeeds if and only if no side that gains events passes the case allowance, and then appends exactly the events of the artifacts whose label is not yet as asked. |
| `LabelMutations.LimitHolds` | collab/server/src/modules/cases/service.ts:1902-1926 | A request that succeeds leaves the public and the protected event counts within the allowance or as they were. |
| `LabelMutations.MutationSetsLabels` | collab/server/src/modules/cases/service.ts:1905-1946 | After a request on any history every label it covers is listed in its lane if and only if it was an add, and every other label of either lane is as before. |
| `LabelMutations.WritesExactlyChanges` | collab/server/src/modules/cases/service.ts:1914-1923 | An event is written for an artifact if and only if the request changes what the lane lists for it. |
| `LabelMutations.MutationKeepsUnique` | collab/server/src/modules/cases/service.ts:1924 | A request keeps sequences unique per artifact and lane, although all its sequences are taken from the history it found. |
| `LabelMutations.RunIsUnique` | collab/server/src/modules/cases/service.ts:1844-1946 | Every run of label requests and plain annotations from an empty history is lane-unique. |
| `LabelMutations.RunIsContiguous` | collab/server/src/modules/cases/service.ts:1924 | In every run the sequences of each artifact's lane count up from one without a gap. |
| `LabelMutations.HiddenNeverShows` | collab/contracts/src/evidence-labels.ts:6-7 | A share-safe request on public artifacts has the same outcomes and the same admission whatever the owner-only history holds. |
| `LabelMutations.LastRequestWins` | collab/server/src/modules/cases/service.ts:1844-1946 | In every run a lane lists a label if and only if the last successful request about it was an add. |
| `ArtifactAnnotation.HasLaneUniqueSequences` | collab/contracts/src/artifact-annotation.ts:76-96 | Comparing the number of distinct keys with the number of events decides lane uniqueness. |
| `ArtifactAnnotation.ParseAnnotationList` | collab/contracts/src/artifact-annotation.ts:76-96 | Accepts a list if and only if every row is valid and bound to the case, sequences are lane-unique, and a served label list is the ascending projection of the history with the artifact written before the label in each entry. |
| `ArtifactAnnotation.LabelsDecidedByHistory` | collab/contracts/src/artifact-annotation.ts:90-96 | Two accepted deliveries of the same rows in any order carry the same labels, namely those live in some lane. |
| `ReleaseChecksums.WriteSums` | scripts/release-contract/release_contract.py:833-841 | Writes one line per file in name order, and refuses exactly the empty set. |
| `ReleaseChecksums.ReadSums` | scripts/release-contract/release_contract.py:1108-1126 | The reading loop returns the line-by-line meaning of the text, with blank lines skipped and malformed or repeated lines refused. |
| `ReleaseChecksums.SumLineExact` | scripts/release-contract/release_contract.py:1108-1126 | The reader's pattern admits exactly a 64-digit lower-case digest, two spaces and a name without separators or line ends, and takes the line apart there. |
| `ReleaseChecksums.SplitLaws` | scripts/release-contract/release_contract.py:1108-1126 | Splitting gives no line for nothing, one line for text without a boundary, and ends a line at its first boundary, a carriage return taking its newline along. |
| `ReleaseChecksums.SafeByCode` | scripts/release-contract/release_contract.py:1108-1126 | A name survives the round trip exactly when none of its characters is a slash of either kind or one of the ten line boundaries. |
| `ReleaseChecksums.ReadUndoesWrite` | scripts/release-contract/release_contract.py:1108-1126 | Reading a written checksum file returns the written digests if and only if every name is non-empty and free of separators and line boundaries. |
| `ReleaseBundle.Assemble` | scripts/release-contract/release_contract.py:977-1067 | Succeeds if and only if every demand on the directory is met; the directory is then the bundle of its staged files and the result its manifest; no outcome touches a staged file. |
| `ReleaseBundle.WriteMetadata` | scripts/release-contract/release_contract.py:833-975 | Writes checksums, inventory, SBOM and manifest over the payload, keeps every payload file, and succeeds exactly for the installed channel. |
| `ReleaseBundle.CatalogOf` | scripts/release-contract/release_contract.py:553-580 | Collects one entry per file in name order with its digest and class. |
| `ReleaseBundle.CatalogExact` | scripts/release-contract/release_contract.py:553-580 | The catalogue lists every released file once in name order with its digest; a staged file has its classified kind and platform, and only latest.json is metadata. |
| `ReleaseBundle.ManifestExact` | scripts/release-contract/release_contract.py:904-975 | Every assembled manifest is a promotable unpublished draft that promises no publication, and is signed exactly when latest.json is released. |
| `ReleaseVerify.ManifestAssets` | scripts/release-contract/release_contract.py:1070-1087 | Accepts exactly non-empty entries with distinct safe names and hexadecimal digests, and returns the recorded digests. |
| `ReleaseVerify.VerifyBundle` | scripts/release-contract/release_contract.py:1129-1175 | Accepts a directory if and only if it is flat, has exactly the recorded names, and every recorded and checksummed digest agrees. |
| `ReleaseVerify.VerifiedExact` | scripts/release-contract/release_contract.py:1129-1175 | Under an assembled manifest a directory is accepted if and only if it is flat, has releasable names, has the bundle's names and digests except the manifest's own, and its checksum file reads as the bundle's. |
| `ReleaseVerify.ManifestFileUnchecked` | scripts/release-contract/release_contract.py:1129-1175 | An assembled bundle with any text in place of its manifest file still verifies under its manifest. |
| `ReleaseVerify.AssembledVerifies` | scripts/release-contract/release_contract.py:977-1067 | The bundle of a payload passes verification if and only if its file names are releasable. |
| `ReleaseVerify.AssembleThenVerify` | scripts/release-contract/release_contract.py:977-1175 | Whatever a successful assembly leaves in the directory verifies under the manifest it returned if and only if the released names are releasable. |
| `ReleaseVerify.TamperDetected` | scripts/release-contract/release_contract.py:1129-1175 | When the digest has no collision on the checksum file, names and digests alone decide: any missing, extra or altered file but the manifest is refused. |
| `ReleaseVerify.ReassemblyIsStable` | scripts/release-contract/release_contract.py:186-197 | An assembled bundle can be assembled again if and only if reuse detection does not fire on it, and the result is the same byte for byte. |
| `ReleaseUpload.PlanResumableUpload` | scripts/release-contract/release_contract.py:1178-1202 | Succeeds if and only if the draft holds only local files with equal digests, and then splits the local names, in order, into missing and already held. |
| `ReleaseUpload.AlwaysResumable` | scripts/release-contract/release_contract.py:1178-1202 | From an empty draft, after any sequence of partial uploads, the plan succeeds and no replacement is needed. |
| `ReleaseUpload.RoundShrinks` | scripts/release-contract/release_contract.py:1178-1202 | An attempt keeps every remote file and shrinks the missing set by exactly what landed, strictly if anything did. |
| `ReleaseUpload.UploadCompletes` | scripts/release-contract/release_contract.py:1178-1202 | If every attempt lands something missing, as many attempts as files end with the draft equal to the local bundle. |
| `ReleaseStore.MemoryReleaseStore.constructor` | scripts/release-contract/release_contract.py:1304-1305 | A new store is empty. |
| `ReleaseStore.MemoryReleaseStore.Get` | scripts/release-contract/release_contract.py:1307-1320 | Returns the stored release of a tag, if any. |
| `ReleaseStore.MemoryReleaseStore.CreateDraft` | scripts/release-contract/release_contract.py:1322-1349 | Creates a draft once; an existing tag is left alone and answered if and only if metadata and SHA match. |
| `ReleaseStore.MemoryReleaseStore.Attach` | scripts/release-contract/release_contract.py:1351-1363 | An asset name takes its first digest; any other digest is refused and leaves the store unchanged. |
| `ReleaseStore.MemoryReleaseStore.PromoteTag` | scripts/release-contract/release_contract.py:1365-1370 | Clears the draft flag of an existing tag and changes nothing else. |
| `ReleaseStore.PromoteGate` | scripts/release-contract/release_contract.py:1498-1562 | Publishes if and only if the tag is a draft, the confirmation is "publish", validation found nothing, and SHA and locked metadata match; every other result leaves the store unchanged and says so. |
| `ReleaseStore.RunKeeps` | scripts/release-contract/release_contract.py:1301-1370 | Between any two moments of any interleaving, name, body, prerelease flag, SHA and attached digests are unchanged and nothing published becomes a draft. |
| `ReleaseStore.StepPublishes` | scripts/release-contract/release_contract.py:1498-1562 | One call publishes a tag if and only if it is a promotion of that tag meeting the whole gate. |
| `ReleaseStore.PublishedOnlyThroughGate` | scripts/release-contract/release_contract.py:1498-1562 | After any run from an empty store a tag is published if and only if some call of the run passed the gate. |
| `ReleaseStore.PublishedOnce` | scripts/release-contract/release_contract.py:1498-1562 | At most one call of a run publishes a given tag. |
| `FormUrl.EncodeInjective` | collab/contracts/src/investigation-activity.ts:529-548 | Form-urlencoding of ASCII text (section 5.2 of the URL Standard) is injective. |
| `FormUrl.EncodeCharExact` | collab/contracts/src/investigation-activity.ts:529-548 | Letters, digits and *-._ stand for themselves, a space becomes a plus, and any other ASCII character its code in two upper-case hexadecimal digits. |
| `FormUrl.DecodeUndoesEncode` | collab/contracts/src/investigation-activity.ts:529-548 | A percent and plus decoder (section 5.1 of the URL Standard) undoes the encoding. |
| `FormUrl.SerializeInjective` | collab/contracts/src/investigation-activity.ts:529-548 | Equal query strings come from equal parameter lists. |
| `FormUrl.ParseUndoesSerialize` | collab/contracts/src/investigation-activity.ts:529-548 | Parsing a query string gives back the parameters it was made from. |
| `FormUrl.SetExact` | collab/contracts/src/investigation-activity.ts:529-548 | Setting a parameter leaves its name exactly that value and every other name its values. |
| `ResourceLocator.ScanControlChars` | collab/contracts/src/investigation-activity.ts:151-160 | The early-exit scan finds a control character if and only if there is one. |
| `ResourceLocator.ResourceIdExact` | collab/contracts/src/investigation-activity.ts:248-306 | Of all injection checks only the kind's pattern and the ban on ".." decide whether an identity is accepted. |
| `ResourceLocator.FindKindOfName` | collab/contracts/src/investigation-activity.ts:38-66 | Every kind is found again from its wire name. |
| `ResourceLocator.FillParams` | collab/contracts/src/investigation-activity.ts:529-548 | Setting parameters one by one yields section, item, kind and lane in that order, each present only when non-empty. |
| `ResourceLocator.DerivePathname` | collab/contracts/src/investigation-activity.ts:529-548 | Succeeds exactly on valid resources and returns the pathname of their routed focus. |
| `ResourceLocator.ComponentDecodes` | collab/contracts/src/investigation-activity.ts:529-548 | Percent-decoding undoes the encoding of the fragment. |
| `LocatorPaths.SamePathname` | collab/contracts/src/investigation-activity.ts:360-548 | Two valid resources share a pathname if and only if investigation, stage, section, item, kind and lane agree. |
| `LocatorPaths.PathnameReadsBack` | collab/contracts/src/investigation-activity.ts:529-548 | Reading a derived pathname gives back the investigation, the stage and, under their names, exactly the section, item, kind and lane routed to; the fragment is the section. |
| `LocatorPaths.PathnameSafe` | collab/contracts/src/investigation-activity.ts:529-562 | No derived pathname contains ".." or "//". |
| `CompactLocator.ParseUndoesFormat` | collab/contracts/src/investigation-activity.ts:781-836 | Parsing the compact text of any valid locator returns that locator, with or without a revision. |
| `CompactLocator.FormatUndoesParse` | collab/contracts/src/investigation-activity.ts:781-836 | Any text the compact parser accepts formats back to its trimmed self. |
| `CompactLocator.CompactExact` | collab/contracts/src/investigation-activity.ts:787-836 | Text is accepted if and only if it has no control characters and is, once trimmed, the compact text of a valid locator. |
| `CompactLocator.PaddedParses` | collab/contracts/src/investigation-activity.ts:787-800 | A locator text padded with spaces on either side parses as the unpadded one. |
| `Strings.TrimExact` | collab/contracts/src/investigation-activity.ts:787-800 | Trimming removes white space at both ends and nothing else. |
| `CompactLocator.CompactInjective` | collab/contracts/src/investigation-activity.ts:781-785 | Distinct valid locators have distinct compact texts. |
| `CompactLocator.LocatorExact` | collab/contracts/src/investigation-activity.ts:728-753 | A locator is accepted if and only if its fields are valid and its pathname is the derived one: the traversal check on the pathname never decides. |
| `CompactLocator.FormatExact` | collab/contracts/src/investigation-activity.ts:755-779 | Formatting succeeds if and only if installation, resource, revision and the investigation binding are valid. |
| `ActivityBrowser.PathnameAgrees` | collab/contracts/src/investigation-activity-browser.ts:228-272 | The browser derives the server's pathname for every resource identity the server accepts, and fails on every other. |
| `ActivityBrowser.LocatorAgrees` | collab/contracts/src/investigation-activity-browser.ts:274-292 | Both contracts accept exactly the same locators. |
| `ActivityBrowser.CompactAgrees` | collab/contracts/src/investigation-activity-browser.ts:350-354 | Both contracts print the same compact text for exactly the same locators. |
| `ActivityBrowser.ItemAgrees` | collab/contracts/src/investigation-activity-browser.ts:294-315 | Both contracts accept exactly the same activity items. |
| `ActivityBrowser.PatternsAgree` | collab/contracts/src/investigation-activity-browser.ts:212-226 | Both contracts' resource id patterns admit the same identities for every kind. |
| `ActivityBrowser.KindsAgree` | collab/contracts/src/investigation-activity-browser.ts:54-62 | Both contracts name every kind alike. |
| `ActivityBrowser.TimeAgrees` | collab/contracts/src/investigation-activity-browser.ts:138-145 | Both contracts' timestamp patterns admit the same texts. |
| `ActivityBrowser.DisplayTextAgrees` | collab/contracts/src/investigation-activity-browser.ts:191-203 | Both contracts refuse the same display texts as opaque identifiers or control text. |
| `ActivityBrowser.ScanForbidden` | collab/contracts/src/investigation-activity-browser.ts:179-189 | The browser's early-exit scan finds a forbidden code if and only if there is one. |
| `ActivityBrowser.Pigeonhole` | collab/contracts/src/investigation-activity.ts:885-894 | A list as long as a duplicate-free list it covers has no duplicates. |
| `ActivityBrowser.NoticesAgree` | collab/contracts/src/investigation-activity-browser.ts:317-330 | The browser's notice check without a duplicate test accepts exactly the server's notice lists. |
| `ActivityBrowser.PageAgrees` | collab/contracts/src/investigation-activity-browser.ts:317-330 | The server accepts a page if and only if the browser does and the next cursor, if any, decodes. |
| `ActivityBrowser.OpaqueCursorNotEnough` | collab/contracts/src/investigation-activity-browser.ts:317-330 | A page whose next cursor is an opaque token that does not decode is accepted by the browser and refused by the server. |
| `ActivityFeed.BeforeStrictTotal` | collab/contracts/src/investigation-activity.ts:1010-1020 | The mixed-direction comparator is a strict total order on rows with distinct keys. |
| `ActivityFeed.AfterCursorExact` | collab/contracts/src/investigation-activity.ts:1010-1032 | A row comes after a cursor if and only if it is older; or as old and of a later investigation; or of the same with a lower sequence; or with the same sequence and a later activity id. |
| `ActivityFeed.DeliveredInFeedOrder` | collab/contracts/src/investigation-activity.ts:1010-1032 | Every walk is delivered newest first, then by investigation, then from the highest sequence down, then by activity id. |
| `ActivityFeed.PageExact` | collab/server/src/modules/activity/service.ts:225-253 | A request fails exactly on a cursor whose row is gone; otherwise the page holds the due rows shown first, full if more are due, and offers its last row as next cursor exactly then. |
| `ActivityFeed.NothingRepeats` | collab/contracts/src/investigation-activity.ts:1022-1032 | However the feed changes between pages, a walk delivers a strictly ascending sequence, so no row twice. |
| `ActivityFeed.NothingSkipped` | collab/server/src/modules/activity/service.ts:225-253 | While the feed only grows, a finished walk delivers every row present at its start. |
| `ActivityFeed.NeverStale` | collab/server/src/modules/activity/service.ts:225-253 | While the feed only grows, no cursor of a walk goes stale. |
| `ActivityFeed.FixedFeedWalk` | collab/server/src/modules/activity/service.ts:225-253 | On a fixed feed, for every page size, the walk finishes and delivers exactly the rows after the cursor, once each and in order. |
| `Lifecycle.FindRestoreTarget` | collab/contracts/src/investigation-lifecycle.ts:132-152 | The loop returns the status of the usable entry with the highest sequence, earliest row among equals, or open when there is none. |
| `Lifecycle.TargetAfter` | collab/contracts/src/investigation-lifecycle.ts:132-152 | Appending an entry with a higher sequence makes it the target if it is usable and leaves the target alone otherwise. |
| `Lifecycle.SemanticsExact` | collab/contracts/src/investigation-lifecycle.ts:395-453 | A preview passes the semantic check if and only if, up to wording, it is the one served for its status, hold and some history. |
| `Lifecycle.PreviewExact` | collab/contracts/src/investigation-lifecycle.ts:395-453 | Field by field: archive is offered exactly to a working case without a hold, refused for the hold first and for being archived otherwise; restore exactly to an archived case, to its working target. |
| `Lifecycle.ServedPreviewPasses` | collab/contracts/src/investigation-lifecycle.ts:155-194 | The served preview passes its own check for every status, hold and history. |
| `LifecycleRuns.TargetInEveryRun` | collab/server/src/modules/cases/service.ts:1414-1497 | In every run from every start the restore target is the last working status recorded in the run, or else the start's own target. |
| `LifecycleRuns.TargetIsLastWorking` | collab/server/src/modules/cases/service.ts:1414-1497 | In every run from a working start the restore target is the status last held while not archived, if and only if the run recorded a working status or the start's history names its status. |
| `LifecycleRuns.RestoreReturns` | collab/server/src/modules/cases/service.ts:1511-1643 | Every restore that fires sets the last working status recorded, after any number of cycles, and that is the status held before the archive on exactly the same condition. |
| `LifecycleRuns.ArchiveRestoreExact` | collab/contracts/src/investigation-lifecycle.ts:132-194 | Archive then restore returns to the old status if and only if the history names it. |
| `LifecycleRuns.ImportedComesBackOpen` | collab/server/src/modules/portable-investigations/persist.ts:955-973 | A case inserted as monitoring or resolved with no recorded status is archived and restored to open. |
| `LifecycleRuns.HoldStopsArchiveOnly` | collab/contracts/src/investigation-lifecycle.ts:155-194 | No archive fires under legal hold; a restore of an archived case fires if and only if the request is current and a return to resolved is authorised. |
| `LifecycleRuns.LifecycleOnlyByCommand` | collab/contracts/src/investigation-lifecycle.ts:775-779 | Only the archive command archives and only the restore command leaves archived. |
| `LifecycleRuns.ArchivedOffHold` | collab/server/src/modules/cases/service.ts:1511-1643 | In every run, a case that went from working to archived did so through an archive command that fired while no hold was set. |
| `LifecycleRuns.LeftByRestore` | collab/server/src/modules/cases/service.ts:1511-1643 | In every run, a case that left the archive did so through a restore command that fired. |
| `LifecycleRuns.HeldStaysWorking` | collab/contracts/src/investigation-lifecycle.ts:155-172 | While a hold stays set, a case that was not archived stays so. |
| `LifecycleRuns.FreshCaseWellStarted` | collab/server/src/modules/cases/service.ts:1238-1282 | Cases created open, whatever other rows their timeline already has, or with their opening status recorded, meet the assumption of the run theorems. |
| `LifecycleRuns.SetStatusExact` | collab/server/src/modules/cases/service.ts:1414-1497 | A working case takes a command to a working status, resolved only with authority, whole: status, one history row with the next sequence and the command's clock, hold kept; every other status command leaves the case alone. |
| `LifecycleRuns.ActExact` | collab/server/src/modules/cases/service.ts:1565-1643 | An action changes the case exactly when it names the current status, hold and restore target and is due, and then records its target alone. |
| `LifecycleRuns.StatusFollowsCommands` | collab/server/src/modules/cases/service.ts:1414-1497 | While no action fires, a working case has the status of the last command it took, or the one it started with; an archived case stays archived. |
| `LifecycleRuns.OtherCommands` | collab/server/src/modules/cases/service.ts:1414-1497 | Setting a hold and any other timeline row keep status and history and use up one sequence. |
| `CorpusIntake.Base64LengthExact` | collab/contracts/src/investigation-corpus-intake.ts:65-67 | The length formula is the exact length of the padded encoding of section 4 of RFC 4648 for every byte string. |
| `CorpusIntake.DecodeUndoesBase64` | collab/contracts/src/investigation-corpus-intake.ts:65-67 | A strict decoder of section 4 of RFC 4648 undoes the encoding for every byte string. |
| `CorpusIntake.CapExact` | collab/contracts/src/investigation-corpus-intake.ts:265-288 | A cap on the encoded length admits exactly one byte more than the byte limit. |
| `CorpusIntake.OriginExact` | collab/contracts/src/investigation-corpus-intake.ts:255-290 | A zip carries an archive of 1 to 512 MiB plus one byte and no files; any other origin no archive and 1 to 4096 files within the path, media type and size caps. |
| `CorpusIntake.ParseExact` | collab/contracts/src/investigation-corpus-intake.ts:292-309 | The parser accepts exactly the requests with a source label of 1 to 240 units, a bounded key, a digest token if any, and an admissible origin. |
| `CorpusIntake.BodyTextSize` | collab/contracts/src/investigation-corpus-intake.ts:69-80 | The size counted for a body is the length of its compact JSON text. |
| `CorpusIntake.BodyFits` | collab/contracts/src/investigation-corpus-intake.ts:49-80 | Every accepted request within the byte allowance whose media types need no escaping fits the body limit, for any file count and any escaping of paths. |
| `CorpusIntake.MediaBudgetExact` | collab/contracts/src/investigation-corpus-intake.ts:49-80 | For every m: all accepted requests within the allowance whose media types are written in at most m bytes fit the body limit if and only if m is at most 455. |
| `CorpusIntake.HeaviestOverflows` | collab/contracts/src/investigation-corpus-intake.ts:235-309 | With media types written in 456 bytes an accepted request within the allowance exceeds the limit, whatever bytes it carries. |
| `BenchAgreement.CheckLanes` | collab/contracts/src/bench-artifact.ts:457-468 | Accepts lanes if and only if there is one and candidates are distinct; otherwise names the first lane that repeats a candidate. |
| `BenchAgreement.TraceRefs` | collab/contracts/src/bench-artifact.ts:241-281 | A trace cites each accepted evidence id of its lane once, ascending. |
| `BenchAgreement.CollectOwners` | collab/contracts/src/bench-artifact.ts:326-338 | The nested loops record, in order of first citation, each ref with its citing candidates in lane order. |
| `BenchAgreement.AgreementFromLanes` | collab/contracts/src/bench-artifact.ts:326-359 | The computed agreement is the one the theorems below are about. |
| `BenchAgreement.SharedByTwo` | collab/contracts/src/bench-artifact.ts:326-359 | For distinct candidates a ref is a shared anchor if and only if two or more candidates cite it. |
| `BenchAgreement.AnchorNamesCiters` | collab/contracts/src/bench-artifact.ts:339-345 | A shared anchor names exactly the citing candidates, ascending. |
| `BenchAgreement.SpecificToOne` | collab/contracts/src/bench-artifact.ts:346-352 | A ref is specific to a candidate if and only if that candidate alone cites it. |
| `BenchAgreement.SpecificAscending` | collab/contracts/src/bench-artifact.ts:346-352 | There is one row per candidate, in lane order, and its refs are strictly ascending. |
| `BenchAgreement.Partition` | collab/contracts/src/bench-artifact.ts:326-359 | Every cited ref is either shared or specific to one candidate, never both, and nothing else is listed. |
| `BenchAgreement.ConservedExactly` | collab/contracts/src/bench-artifact.ts:326-359 | For any lanes the agreement lists at least every citation, and exactly as many if and only if each ref with one owner belongs to a candidate with one row. |
| `BenchAgreement.Conserved` | collab/contracts/src/bench-artifact.ts:462-468 | For distinct candidates the number of (candidate, ref) citations is conserved. |
| `BenchAgreement.RepeatedCandidateDoubles` | collab/contracts/src/bench-artifact.ts:462-468 | Without the duplicate check a repeated candidate has its own refs listed twice. |

## Left out

- JSON shape checking (`checkObject` and the field checkers): inputs are well shaped; the checks the contracts add on top are modelled. Composite JSON keys are tuples.
- Unicode normalisation and the tables of dangerous characters: parameters of the theorems; URL encoding and `encodeURIComponent` are modelled on ASCII, which is all a valid locator contains.
- Digests, signatures, matrices of required platforms, foreign-reuse detection, `latest.json` and the renderers of inventory, SBOM and manifest: parameters of assembly.
- ReleaseBundle.Assemble: the staged directory is flat, so the refusal of repeated base names in nested directories is not modelled; the verifier's own refusal of nested files is.
- ReleaseStore.MemoryReleaseStore.Get: a release is a value in a map, which matches the copies the source hands out; identity of stored objects is not modelled.
- ReleaseStore.PromoteGate: the reason texts of results are not modelled.
- `localeCompare` on timestamps, UUIDs and digests is an abstract collation; cursor encoding, filter fingerprints, and the server's filtering and de-duplication before paging are not modelled.
- ActivityBrowser.PageAgrees: the server's decoding of a cursor is a parameter, assumed to accept only opaque tokens as its round-trip check ensures.
- ActivityFeed.NothingSkipped and ActivityFeed.NeverStale: assume a feed that only grows, as investigation-scoped pages have; the overview is a window over the newest 500 sources, from which a row can drop out. ActivityFeed.NothingRepeats needs no such assumption.
- LabelMutations.ApplyMutation: idempotent replay of a stored request, authority to label and the timeline rows are not modelled; the artifact ids are taken in the order they are processed.
- PlainData.CopyFaithful: proxies, freezing and the prototype of a copy are not modelled; own properties are.
- Ordering.LexLt: characters are compared by code point where JavaScript compares UTF-16 units; the two orders differ only between characters outside the basic plane and U+E000 to U+FFFF, and both are strict total orders.
- Lifecycle.SemanticsExact: the wording of refusal details is not compared.
- CorpusIntake.BodyFits: the parser also refuses a source label of blanks only, which can only shrink the set of accepted requests.
- The judgment list, success, refused and conflict parsers, bulk annotation results, locator input objects and the lifecycle action envelopes: single-branch checks over parts modelled here.
- `GitHubReleaseStore`, git and OpenSSL calls, HTTP routes, stores, the desktop application and the Rust core: I/O and foreign tools.
