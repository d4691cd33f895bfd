# KnowledgeCore: a verified model

KnowledgeCore is a local document vault. This project models the parts whose promises span several functions or
whole runs, and proves them in Dafny 4.11. `dafny verify dfyconfig.toml` checks everything.

| file | what it models |
|---|---|
| `Text.dfy`, `Sorting.dfy` | byte order, decimal numerals, white space; stable sorting and dedup |
| `CanonJson.dfy`, `JsonReader.dfy`, `JsonRoundTrip.dfy`, `JsonGrammar.dfy` | the canonical JSON printer, the reader it must agree with, the round trip, and the spellings only the reader knows |
| `Events.dfy` | the owner event chain and its verifier |
| `LifecycleRecords.dfy`, `Lifecycle.dfy`, `LifecycleStore.dfy`, `LifecycleRuns.dfy`, `LifecycleDepth.dfy` | document lifecycle: payloads, resolver, load and append, whole runs, the depth limit |
| `Federation.dfy` | the V2 federation query over those runs |
| `Sync.dfy` | the conflict rule, the S3 lock protocol as interleaved store operations, and devices around one target |
| `SyncMerge.dfy` | merge previews and the four auto-merge modes |
| `DbMigration.dfy` | the SQLCipher migration over three files with faults everywhere |
| `ObjectStore.dfy` | the content-addressed store with encryption at rest and its migration loop |
| `Chunking.dfy` | chunking and locator slices |
| `LineagePolicy.dfy`, `Lineage.dfy` | deny-overrides policies, edit leases, overlay edits |
| `BundleOrder.dfy`, `FolderBundle.dfy`, `EscrowBlock.dfy` | exporter against verifier: zip order, manifest, escrow block |

Conventions. Digests come from a function parameter; a lemma that needs it assumes only that no two of the texts it
talks about collide. Tables are maps and sequences in class fields, and one SQL transaction is one step. Clocks,
sessions, permission lookups, query row orders and faults are parameters, quantified over. A run is a list of states
and a list of steps, with every step allowed by the code's own checks. Bytes are characters.

## What the code does not promise

Each of these is proved of the model, with the exact condition beside it.

- An accepted lifecycle append with a subject longer than 200 characters makes the whole table unreadable for good
  (`LifecycleDepth.LongSubjectBreaksLoading`; exactly then, by `LifecycleRuns.AcceptedAppendReloads`): only the reader
  bounds the subject.
- 101 accepted appends in a row leave the first document unresolvable (`LifecycleDepth.AcceptedAppendsCanBreakResolution`;
  exactly beyond 100 events, by `LifecycleDepth.UpstreamResolvesExactlyBelowDepth`): append never looks upstream.
- Recording the canonical text of a document again can make the lifecycle table unreadable
  (`LifecycleDepth.RecordingAgainBreaksLoading`; exactly when a recorded hash changes, by
  `LifecycleRuns.LoadsExactlyWhenHashesStand`).
- Two processes that both see an expired S3 lock can both get inside (`SyncS3.TakersCanBothEnter`; all goes well exactly
  when every takeover finds nobody inside, by `SyncS3.RunsKeepInvExactly`): the delete is unconditional.
- A rerun after a crash between the two renames of the database migration discards the only copy
  (`DbMigration.RerunAfterCrash`; data is lost exactly when db_path lacks it and the call gets past its preflight, by
  `DbMigration.DataSurvivesExactly`): the preflight deletes the backup. Calling only while db_path exists is enough
  (`DbMigration.GuardedCallsKeepData`).
- Plain content that begins with `KCE1` is never readable again (`ObjectStore.MarkedPlainPutIsUnreadable`; exactly that
  content, by `ObjectStore.RunsReadBack`).
- A zip whose vector files clash with a directory name is refused by the verifier (`BundleOrder.DottedSiblingIsRefused`;
  exactly those, by `BundleOrder.ZipOrderAcceptedExactly`), although the packaging specification promises
  lexicographic order of paths (knowledgecore-docpack/spec/28-deterministic-zip-packaging-v1.md:8): the exporter
  compares components.
- A pull keeps a vault directory that the snapshot lacks (`SyncDevices.PullReplacesTreeExactly`).

The escrow exporter does not check that a provider is supported and the verifier does
(`EscrowBlock.ExportedBlockAcceptedExactly`), but that is no failure of the repository: every writer of escrow rows
rejects other ids first (crates/kc_core/src/rpc_service.rs:557-697).

Where documentation and code differ the model follows the code. knowledgecore-docpack/spec/06-chunking-v1.md:16-28 gives other
defaults and asks for splits at headings, blank lines and markers, and at most `max_chars`; the code cuts by counts alone and
may exceed `max_chars`. knowledgecore-docpack/spec/37-sync-conservative-auto-merge-v1.md:52 has all reasons sorted; the last
two policies list them in the order they are looked for.

## Model

| member | source | states |
|---|---|---|
| CanonJson.WriteCanonical | crates/kc_core/src/canon_json.rs:4-65 | Succeeds exactly on values without a float anywhere, and appends the canonical text to whatever the buffer already held |
| CanonJson.ToCanonicalBytes | crates/kc_core/src/canon_json.rs:67-71 | The canonical text of a value, or the float error: never a partial text |
| JsonRoundTrip.CanonicalReadsBack | crates/kc_core/src/canon_json.rs:4-71 | Every printable value is given back by a reader of the grammar in sections 2-7 of RFC 8259 |
| JsonRoundTrip.CanonicalInjective | crates/kc_core/src/canon_json.rs:4-71 | Equal canonical texts come from equal values, objects being maps |
| JsonRoundTrip.CanonicalTextsAreThePrinted | crates/kc_core/src/events.rs:27-44 | The parse, print, compare test accepts a text if and only if some float-free value prints to it |
| JsonRoundTrip.CanonicalNoControl | crates/kc_core/src/canon_json.rs:4-65 | No raw control character, in particular no newline, in any canonical text, nested keys and strings included |
| JsonRoundTrip.EscapeIsShortest | crates/kc_core/src/canon_json.rs:4-65 | No spelling the reader takes for a character is shorter than the printed one, and printed hex digits are lower case |
| JsonRoundTrip.CanonicalShapes | crates/kc_core/src/canon_json.rs:4-65 | Arrays and objects have no white space, and of two keys the smaller is printed first whichever was entered first |
| JsonGrammar.NumberedCharacterReads | crates/kc_core/src/events.rs:27-44 | A character given by its number in four hex digits of either case is read as that character |
| JsonGrammar.PairedNumbersRead | crates/kc_core/src/events.rs:27-44 | A surrogate and a second number are one character above the first plane if and only if they are a pair, and malformed otherwise |
| JsonGrammar.WholeNumberReads | crates/kc_core/src/events.rs:27-44 | A whole number is an integer from -2^63 up to 2^64 - 1, and a float beyond and for a negative zero, which no payload may hold |
| JsonGrammar.FloatReads | crates/kc_core/src/events.rs:27-44 | A number with a fraction or an exponent is a float with its own text |
| JsonGrammar.OnlyFractionAndExponent | crates/kc_core/src/events.rs:27-44 | What is taken behind the digits of a number is a fraction and an exponent as section 6 of RFC 8259 has them, and nothing else |
| JsonGrammar.OtherDigitsAreMalformed | crates/kc_core/src/events.rs:27-44 | No digit at all, or a digit behind a leading zero, is no number |
| Events.VerifyEventRecord | crates/kc_core/src/events.rs:17-62 | Accepts a record exactly when its payload text is canonical and its hash is that of its five-line frame |
| Events.EventLog.ReadVerifiedEventChain | crates/kc_core/src/events.rs:64-126 | Returns the rows if and only if every record verifies and links to the one before it |
| Events.EventLog.AppendEvent | crates/kc_core/src/events.rs:128-185 | One more record linked to the tip, or no change when the payload holds a float |
| Events.AppendKeepsChain | crates/kc_core/src/events.rs:128-185 | The appender and the verifier agree: a verified chain stays verified, whatever the type, time and payload |
| Events.FrameDecodesUniquely | crates/kc_core/src/events.rs:45-60 | Two accepted records with one frame have the same time, type, payload and previous hash, even if types hold newlines |
| Events.FrameIsFiveLines | crates/kc_core/src/events.rs:45-60 | For a type without a newline the hashed text has exactly five lines: tag, time, type, payload, and the hash before or nothing |
| Events.TipDeterminesChain | crates/kc_core/src/events.rs:64-126 | Without collisions among the frames of two accepted chains, equal last hashes mean equal length and equal events at every position |
| LifecycleRecords.PayloadReadsBack | crates/kc_core/src/document_lifecycle.rs:436-470 | The payload the writer serializes is float-free and decodes to itself |
| LifecycleRecords.WrittenRecordReadsBack | crates/kc_core/src/document_lifecycle.rs:136-225 | A written record is read back as its payload and event exactly when the payload meets the reader's contract, and is corrupt otherwise |
| LifecycleRecords.DecodedFieldByField | crates/kc_core/src/document_lifecycle.rs:136-225 | A decoded payload holds each member under its own name, the two optional ones missing or null, and there is no other member |
| LifecycleRecords.RecordIsTakenExactly | crates/kc_core/src/document_lifecycle.rs:136-225 | A record whose payload decodes is taken if and only if the schema, the type for its action, the time, the digests, both lengths and the replacement fit, the bounds in numerals |
| LifecycleRecords.EventSaysWhatTheRecordSays | crates/kc_core/src/document_lifecycle.rs:136-225 | The public event has the fields of record and payload, subject and reason only as digests |
| LifecycleResolver.ResolveDocumentLifecycle | crates/kc_core/src/document_lifecycle.rs:270-348 | Terminates on every map, cyclic ones included, with the answer of the unbounded walk, the cycle error or the depth error as the walk's shape decides; the answers are those of ChainResolvesExactly |
| LifecycleResolver.StopIsUnique | crates/kc_core/src/document_lifecycle.rs:285-347 | A walk ends at one place only, so the resolver's meaning is well defined |
| LifecycleResolver.AcyclicStops | crates/kc_core/src/document_lifecycle.rs:285-347 | On an acyclic map every walk ends |
| LifecycleResolver.AcyclicResolvesExactlyWithinDepth | crates/kc_core/src/document_lifecycle.rs:285-347 | On an acyclic map with single events the resolver equals the unbounded walk if and only if at most 100 documents on it carry events; otherwise the depth error, never a conflict or the cycle error |
| LifecycleResolver.ResolvesExactlyWhenWalkEnds | crates/kc_core/src/document_lifecycle.rs:270-348 | On every map, an answer comes out if and only if the walk ends properly within the bound |
| LifecycleResolver.ActiveMeansNoEvent | crates/kc_core/src/document_lifecycle.rs:288-300 | A document without an event resolves to itself, active, with no events |
| LifecycleResolver.ChainResolvesExactly | crates/kc_core/src/document_lifecycle.rs:285-347 | A chain of single supersessions that ends in no event, a tombstone, or several events resolves to what it ends in, Active, Tombstoned or Conflicted, with its events in order, if at most 100 of its documents carry events, and is the depth error otherwise |
| LifecycleResolver.AnswersAreOfChains | crates/kc_core/src/document_lifecycle.rs:270-348 | Conversely every answer on any map is that of such a chain from the document asked for |
| LifecycleResolver.InitialStateIsTold | crates/kc_core/src/document_lifecycle.rs:288-300 | The initial state is told by the number of events of the source and the action of a single one |
| LifecycleResolver.TombstoneResolvesToItself | crates/kc_core/src/document_lifecycle.rs:338-344 | A document whose only event is a tombstone resolves to itself, tombstoned, with that event |
| LifecycleStore.Vault.LoadDocumentLifecycleEvents | crates/kc_core/src/document_lifecycle.rs:227-268 | The loading loop yields the map of the verified chain, or the error of the first record that fails |
| LifecycleStore.Vault.FindActiveHash | crates/kc_core/src/document_lifecycle.rs:419-434 | The canonical hash of a document that exists and carries no event; the error of the first check that fails otherwise |
| LifecycleStore.Vault.AppendDocumentLifecycleEvent | crates/kc_core/src/document_lifecycle.rs:390-502 | All checks in order; then exactly one new record on the chain, or no change |
| LifecycleStore.AcceptedExactly | crates/kc_core/src/document_lifecycle.rs:350-454 | An append is accepted if and only if request, session, reason, a permitted caller, the loading chain and two different active documents (or one and no replacement) are all in order |
| LifecycleStore.PayloadSaysTheRequest | crates/kc_core/src/document_lifecycle.rs:436-470 | The payload written is the request's, with the caller's subject and the recorded canonical hashes |
| LifecycleRuns.AcceptedAppendReloads | crates/kc_core/src/document_lifecycle.rs:136-268 | After an accepted append the chain verifies, and it loads to the old map plus exactly the new event if and only if the subject has at most 200 characters |
| LifecycleRuns.RunsStayAcyclic | crates/kc_core/src/document_lifecycle.rs:419-454 | In every run, canonical texts recorded again included, each document has at most one event and supersession links never form a cycle |
| LifecycleRuns.RunsNeverConflict | crates/kc_core/src/document_lifecycle.rs:270-348 | In every run resolution never reports a conflict and never the cycle error |
| LifecycleRuns.LoadsExactlyWhenHashesStand | crates/kc_core/src/document_lifecycle.rs:227-268 | Records load if and only if the reader takes each of them and no canonical hash they record has changed; what they load to depends on the rows alone |
| LifecycleRuns.RunsKeepEvents | crates/kc_core/src/document_lifecycle.rs:227-268 | Between any two states of a run that load, whatever canonical texts were recorded again, the later has every event of the earlier, unchanged |
| LifecycleRuns.TombstoneIsForever | crates/kc_core/src/document_lifecycle.rs:227-348 | Once a tombstone is loaded, its document resolves as tombstoned by that event in every later state that loads |
| LifecycleRuns.SupersessionIsForever | crates/kc_core/src/document_lifecycle.rs:227-348 | Once a supersession is loaded, every later answer about its document is initially superseded and not conflicted, and the only error left is the depth error |
| LifecycleRuns.HashesStandExactly | crates/kc_core/src/document_lifecycle.rs:227-268 | A record's hashes stand if and only if the canonical table still gives exactly the hashes it holds, for the replacement as well |
| LifecycleDepth.UpstreamResolvesExactlyBelowDepth | crates/kc_core/src/document_lifecycle.rs:285-347 | After an append at the end of a walk, a document upstream resolves to the new end if and only if its walk carried fewer than 100 events |
| LifecycleDepth.AcceptedAppendsCanBreakResolution | crates/kc_core/src/document_lifecycle.rs:390-502 | A run of 101 accepted appends after which the first document fails with the depth error |
| LifecycleDepth.LongSubjectBreaksLoading | crates/kc_core/src/document_lifecycle.rs:390-502 | One accepted append by a subject of 201 characters after which no canonical table lets the events load |
| LifecycleDepth.RecordingAgainBreaksLoading | crates/kc_core/src/document_lifecycle.rs:227-268 | A run of one accepted append and one canonical text recorded again after which the events no longer load |
| Federation.RunQueryV2 | crates/kc_core/src/federation.rs:798-912 | The candidate loop: an answer about the scanned prefix up to the limit, or the error of the first unreadable match before it |
| Federation.AnswerPartitionsMatches | crates/kc_core/src/federation.rs:798-912 | Facts and notices together are the scanned matches, each once, at most 20 of them, at most the request's limit, and at most one for a request of none; facts have no event, notices have one |
| Federation.AnswersAreUnique | crates/kc_core/src/federation.rs:798-912 | The lifecycle map, candidates and limit admit one answer and one cut |
| Federation.NoticesAreResolutions | crates/kc_core/src/federation.rs:504-527 | A notice is the document's resolution |
| Federation.SuppressionIsForever | crates/kc_core/src/federation.rs:798-912 | Over whole runs, once a document has a lifecycle event no later answer states it as a fact; if scanned it is a notice |
| Federation.RunsNeverReportConflict | crates/kc_core/src/federation.rs:898-913 | In every run the disposition is told by which of the two lists are empty |
| Federation.AnswerCountIsExact | crates/kc_core/src/federation.rs:273 | When every match is readable the answer has exactly as many entries as there are matches, the request allows (none counting as one) and 20, whichever is least |
| Federation.CandidateReadsExactly | crates/kc_core/src/federation.rs:798-838 | A candidate's text is read if and only if its digests, names, lengths, counters and size fit and the stored text has the digest it names |
| Federation.FactsAreOfCandidates | crates/kc_core/src/federation.rs:798-912 | Every fact restates one scanned candidate that matches |
| Federation.DispositionIsTold | crates/kc_core/src/federation.rs:885-912 | The disposition is a conflict exactly when some notice is one, and otherwise says which of the two lists are empty |
| SyncS3.MovesKeepInv | crates/kc_core/src/sync.rs:1395-1481 | Every store operation, failure or crash but the takeover keeps: one holder inside, its checked head still the head, every head and upload backed by a snapshot |
| SyncS3.RunsKeepInvExactly | crates/kc_core/src/sync.rs:1395-1481 | In every run the invariant holds all the way if and only if every takeover on the way found nobody inside |
| SyncS3.RunsAreExclusive | crates/kc_core/src/sync.rs:1395-1481 | In every interleaving whose takeovers found nobody inside, at most one process is between acquire and release, and the head names a stored snapshot |
| SyncS3.CheckedHeadStands | crates/kc_core/src/sync.rs:2120-2208 | In those runs the head does not change between the check under the lock and the head write |
| SyncS3.HeadChangesAreCheckAndReplace | crates/kc_core/src/sync.rs:2120-2208 | In those runs every change of the head is one atomic check-and-replace by a push whose snapshot is stored |
| SyncS3.FetchAlwaysFindsSnapshot | crates/kc_core/src/sync.rs:2380-2662 | In those runs a process that fetches finds the snapshot its head names |
| SyncS3.TakeoverKeepsInvExactlyWhenNobodyInside | crates/kc_core/src/sync.rs:1400-1453 | Deleting an expired lock keeps the invariant if and only if nobody is inside |
| SyncS3.TakersCanBothEnter | crates/kc_core/src/sync.rs:1400-1453 | Eight steps after which two takers are both inside |
| SyncS3.FreshLockHoldsForAMinute | crates/kc_core/src/sync.rs:1400-1453 | Whoever reads a fresh lock is kept out for 60000 ms of its maker's clock and may take it over from then on |
| SyncDevices.Device.SyncPush | crates/kc_core/src/sync.rs:1982-2077 | Refused without change, or the new head, its snapshot and the device's rows together |
| SyncDevices.Device.SyncPull | crates/kc_core/src/sync.rs:2228-2369 | Refused without change; or every directory the snapshot has is the snapshot's, also after a safe merge, and the rows are the head's; or broken off, with a tree that is done before one directory and untouched after it |
| SyncDevices.Device.ApplySnapshot | crates/kc_core/src/sync.rs:913-950 | The apply loop with a failure at any directory; the rows go with the database directory |
| SyncDevices.PullReplacesTreeExactly | crates/kc_core/src/sync.rs:913-950 | A pull leaves exactly the snapshot's directories if and only if it has every one the vault had; the others stay |
| SyncDevices.RowsAreOfLastSyncedHead | crates/kc_core/src/sync.rs:1998-2062 | In every run a device's recorded head and manifest are those of the head it last pushed or pulled |
| SyncDevices.HeadsComeFromPushes | crates/kc_core/src/sync.rs:1998-2062 | The head is one some push wrote, and its snapshot has the manifest it names |
| SyncDevices.HeadsWithOneNameAreEqual | crates/kc_core/src/sync.rs:798-800 | Without collisions two heads of a run with one snapshot id are the same head |
| SyncDevices.ChangedDeviceReplacesOnlyItsHead | crates/kc_core/src/sync.rs:896-911 | A device that has synchronized and has changed since replaces only the very head it last synchronized with |
| SyncDevices.RefusedExactlyWhenDiverged | crates/kc_core/src/sync.rs:1982-2062 | In every run a push is refused if and only if the device changed since it last synchronized and the head is another one; a device that never synchronized is never refused |
| SyncDevices.PullAnswersExactly | crates/kc_core/src/sync.rs:2228-2369 | In every run a pull without merging gives the head unless the device diverged; with a merge that is judged safe it always gives it |
| SyncMerge.NormalizeChangeSet | crates/kc_core/src/sync_merge.rs:511-551 | Refused exactly when a hash is no digest or an overlay id is empty; otherwise sorted without repetition |
| SyncMerge.NormalIsIdempotent | crates/kc_core/src/sync_merge.rs:511-551 | Normalizing twice is normalizing once and is never refused the second time |
| SyncMerge.MergePreviewPlain | crates/kc_core/src/sync_merge.rs:53-99 | First two policies: safe exactly when both kinds are disjoint and no flag the policy reads is up; a reason exactly where it applies |
| SyncMerge.MergePreviewStrict | crates/kc_core/src/sync_merge.rs:228-305 | Later two policies: the same with the role flag, and a single reason that stands for safe |
| SyncMerge.MergePreviewWithPolicyV2 | crates/kc_core/src/sync_merge.rs:120-226 | Each policy name gives its own policy's report; any other name is refused |
| SyncMerge.RefusalNamesTheWorstFlag | crates/kc_core/src/sync_merge.rs:307-493 | A refusal's code: trust before locks before roles before overlap, for the flags the policy reads |
| SyncMerge.SafetyIsSymmetricAndOrderBlind | crates/kc_core/src/sync_merge.rs:154-305 | Safety and overlap ignore order, repetition and which side is local |
| SyncMerge.MoreChangesAreNeverSafer | crates/kc_core/src/sync_merge.rs:373-451 | Adding elements or raising flags never turns unsafe into safe |
| SyncMerge.DeltasDisjointExactly | crates/kc_core/src/sync.rs:678-699 | The deltas are disjoint if and only if all that both sides share was in the base |
| SyncMerge.AutoMergeGate | crates/kc_core/src/sync.rs:2261-2302 | All four modes accept the same pulls: those whose sides share only what the base had; the verdict does not mention the mode |
| SyncMerge.DeletionsNeverConflict | crates/kc_core/src/sync.rs:678-699 | A side with nothing beyond the base never blocks a merge: deletions are not seen |
| SyncMerge.SafeExactly | crates/kc_core/src/sync_merge.rs:53-451 | A merge is safe if and only if no object and no overlay is on both sides and the flags its policy reads are clear |
| DbMigration.DbFiles.MigrateDbToSqlcipher | crates/kc_core/src/db.rs:321-437 | For every fault pattern and stop: data that db_path held is at db_path, or db_path is missing and the backup holds it; Migrated means encrypted with no leftovers; a clean rollback means the original with no leftovers; short of the preflight the backup is untouched |
| DbMigration.DbFiles.Preflight | crates/kc_core/src/db.rs:321-365 | Clear exactly when the source opens without a key and every operation works, with both leftovers gone; otherwise the backup is untouched and the end is the one of the operation that failed, or AlreadyEncrypted for a database the key opens |
| DbMigration.DbFiles.RollbackMigrationFiles | crates/kc_core/src/db.rs:243-280 | Reported clean only when the backup is back and nothing is left; never loses what the backup held |
| DbMigration.MissingDataIsReported | crates/kc_core/src/db.rs:150-179 | Whenever db_path lacks the data afterwards, the derived state is the recoverable failure and the backup holds it |
| DbMigration.GuardedCallsKeepData | crates/kc_core/src/db.rs:321-437 | Over any sequence of calls each of which finds a file at db_path, whatever leftovers there are, the data is never lost |
| DbMigration.DataSurvivesExactly | crates/kc_core/src/db.rs:321-437 | From every state and fault pattern, data at db_path or in the backup survives a call if and only if db_path held it or the call did not get past its preflight |
| DbMigration.FinishedCallsKeepExactlyDb | crates/kc_core/src/db.rs:243-280 | A call that ends migrated or cleanly rolled back leaves data if and only if db_path held it |
| DbMigration.UnguardedRerunLosesData | crates/kc_core/src/db.rs:362-437 | With db_path missing, a call in which nothing fails leaves nothing of what any file held |
| DbMigration.RerunAfterCrash | crates/kc_core/src/db.rs:389-411 | A crash between the two renames and then a rerun in which nothing fails: success is reported and no file holds the data |
| DbMigration.DerivedStateIsTold | crates/kc_core/src/db.rs:150-179 | Which of the five states is derived, from the three files, the setting and the passphrase |
| ObjectStore.EncryptedReadsBack | crates/kc_core/src/object_store.rs:88-159 | What a keyed store writes is marked, is not the content, reads back with the key and is refused without |
| ObjectStore.PlainReadsBackExactly | crates/kc_core/src/object_store.rs:113-159 | What a plain store writes reads back through any store if and only if it does not begin with the marker |
| ObjectStore.Objects.PutBytes | crates/kc_core/src/object_store.rs:176-226 | The new files and rows for every failure point: an existing file or row is never touched |
| ObjectStore.Objects.GetBytes | crates/kc_core/src/object_store.rs:228-240 | Reads without changing anything: the decoded file, or the error of the path, the file or the key |
| ObjectStore.Objects.RewritePlaintextForHash | crates/kc_core/src/object_store.rs:255-296 | Replaces one file, only for bytes that hash to its name |
| ObjectStore.Objects.MigrateObjects | crates/kc_core/src/rpc_service.rs:1748-1761 | Stopped or failed anywhere, exactly a prefix of the listed files is encrypted and all others untouched; a completed loop counts the plain and the encrypted ones and the counters sum to all |
| ObjectStore.CompletedMigrationIsFinal | crates/kc_core/src/rpc_service.rs:1748-1761 | After a completed loop every listed file is encrypted, and a second run changes nothing and migrates none |
| ObjectStore.RunRefines | crates/kc_core/src/object_store.rs:176-240 | Any mix of puts and partial migrations refines a plain map from hash to bytes |
| ObjectStore.MisreadExactlyWhenMarkedInPlain | crates/kc_core/src/object_store.rs:113-159 | A file is in the misread state if and only if a plain store first wrote it with content that begins with the marker; no later step heals or causes it |
| ObjectStore.RunsReadBack | crates/kc_core/src/object_store.rs:228-240 | In every run the keyed store returns exactly the bytes put, for every hash but those |
| ObjectStore.MigrationNeverRefuses | crates/kc_core/src/rpc_service.rs:1748-1761 | A turn on a file outside that case fails only if encryption itself fails |
| ObjectStore.MarkedPlainPutIsUnreadable | crates/kc_core/src/object_store.rs:113-159 | One plain put of the four marker bytes: accepted and listed, and an error through either kind of store |
| ObjectStore.EncryptedLayout | crates/kc_core/src/object_store.rs:80-111 | A keyed file is the four marker bytes, the 24 nonce bytes of object and key reference, and the sealed content |
| ObjectStore.PathExactly | crates/kc_core/src/object_store.rs:161-174 | A get is refused for its hash exactly when the prefix or two characters behind it are missing, and with a read failure when the file is |
| ObjectStore.OtherReferenceIsRefused | crates/kc_core/src/object_store.rs:113-159 | A file sealed under another key reference is refused when the nonces differ |
| ObjectStore.PutListsItsObject | crates/kc_core/src/object_store.rs:176-226 | An accepted put lists its object with size, place and the event of its first put, and leaves all other rows and files alone |
| Locator.ResolvesExactly | crates/kc_core/src/locator.rs:33-103 | A locator resolves if and only if version, stored hash, text and range fit, to exactly the characters of the range; each error has its case |
| Chunking.ChunkDocument | crates/kc_core/src/chunking.rs:79-158 | Only version 1; the exact number of chunks and every chunk's ordinal, span and id, both loops; what the ranges are is said by MarkdownRecords and PdfRecords |
| Chunking.ConfigTextIdentifies | crates/kc_core/src/chunking.rs:52-63 | Two configurations with one canonical text are equal |
| Chunking.ChunkIdIdentifies | crates/kc_core/src/chunking.rs:65-77 | Without collisions a chunk id stands for one document, configuration, ordinal and range |
| Chunking.MdSpansPartition | crates/kc_core/src/chunking.rs:131-155 | Markdown spans are consecutive from 0 to the end, all but the last of length max, the last of several between min and max + min - 1 |
| Chunking.MdSpanExceedsMaxExactly | crates/kc_core/src/chunking.rs:136-139 | A span exceeds max if and only if it is the last of a text longer than max that leaves a stub shorter than min |
| Chunking.PdfSpansCover | crates/kc_core/src/chunking.rs:103-128 | Pdf windows run from 0 to the end and neighbours share exactly the clamped overlap |
| Chunking.ChunksRebuildText | crates/kc_core/src/locator.rs:85-102 | Every chunk's locator resolves, and the slices less the overlaps are the text |
| Chunking.RecordsAreWellFormed | crates/kc_core/src/chunking.rs:79-158 | Every returned record has its position as ordinal, the document, the configuration's digest, a nonempty range inside the text, and the digest of all that as its id |
| Chunking.MarkdownRecords | crates/kc_core/src/chunking.rs:131-158 | Returned records follow each other from 0 to the end, all but the last max_chars long, and the last is no stub |
| Chunking.PdfRecords | crates/kc_core/src/chunking.rs:100-129 | Returned records are windows from 0 to the end, all but the last window_chars long, that share exactly the overlap allowed |
| Chunking.RecordsRebuildText | crates/kc_core/src/chunking.rs:79-158 | Locators made of the records' own ranges resolve, and their slices less what each repeats are the text |
| Chunking.RecordIdIdentifies | crates/kc_core/src/chunking.rs:65-77 | Without collisions two returned records with one id are the same record of one document and configuration |
| LineagePolicy.ParseCondition | crates/kc_core/src/lineage_policy.rs:100-163 | Meaning and canonical text of a condition in any spelling; its three ways to fail |
| LineagePolicy.StoredConditionReadsBack | crates/kc_core/src/lineage_policy.rs:100-163 | A stored condition re-parses to the same meaning and the same text |
| LineagePolicy.AddKeepsWellFormed | crates/kc_core/src/lineage_policy.rs:204-275 | Whatever is added in whatever spelling, all stored policies stay readable |
| LineagePolicy.PolicyStore.LineagePolicyAdd | crates/kc_core/src/lineage_policy.rs:204-275 | The stored policy or the error, every other policy untouched |
| LineagePolicy.PolicyStore.LineagePolicyBind | crates/kc_core/src/lineage_policy.rs:277-350 | Accepted exactly for three names that are not blank and a policy that exists; then exactly that pair is added and no policy changes |
| LineagePolicy.BindingBindsOnePolicy | crates/kc_core/src/lineage_policy.rs:310-335 | A binding takes effect for its subject and its policy, and for nobody and nothing else |
| LineagePolicy.LineagePolicyDecision | crates/kc_core/src/lineage_policy.rs:401-509 | Blank names, or the error of the first row that cannot be read, for any rows at all; otherwise deny before allow before nothing, each by the first row that speaks |
| LineagePolicy.FirstMatchIsEarliest | crates/kc_core/src/lineage_policy.rs:450-473 | The row a decision names is the earliest that matches |
| LineagePolicy.NamedPolicyIsLeast | crates/kc_core/src/lineage_policy.rs:415-425 | In the query's order no matching row with the effect has a lower priority, or the same and a lower id |
| LineagePolicy.DecisionIsDenyOverrides | crates/kc_core/src/lineage_policy.rs:401-509 | Allowed if and only if some bound matching policy allows and none denies, whatever the row order |
| LineagePolicy.StoredRowsAlwaysParse | crates/kc_core/src/lineage_policy.rs:450-463 | On tables written by add, no decision meets a condition it cannot read |
| LineagePolicy.PolicyStore.EnsureLineagePolicyAllows | crates/kc_core/src/lineage_policy.rs:550-581 | On any rows, readable or not: the verdict and its error; every decision made, also a refusal, is audited once, a failed one never |
| LineagePolicy.VerdictIsDenyOverrides | crates/kc_core/src/lineage_policy.rs:550-581 | On any tables, let through if and only if named, all bound conditions readable, some bound policy allows and none denies |
| LineagePolicy.ReadableExactly | crates/kc_core/src/lineage_policy.rs:100-163 | A condition text is readable if and only if it is a float-free object of at most the four members, each missing, null or a string that is not blank |
| LineagePolicy.MatchesExactly | crates/kc_core/src/lineage_policy.rs:169-202 | A readable row matches if and only if its effect is the one asked for and each member its text has equals, begins or ends the action, subject or document |
| LineagePolicy.DecisionIsOfSpeakingRows | crates/kc_core/src/lineage_policy.rs:401-467 | Allowed if and only if some row allows and none denies whose condition text, member by member, speaks of the request |
| LineagePolicy.SilentRowDecidesNothing | crates/kc_core/src/lineage_policy.rs:401-467 | A row one member of whose condition text is not met leaves the decision what it is without the row |
| LineagePolicy.EffectIsStoredPlain | crates/kc_core/src/lineage_policy.rs:204-275 | An effect in any ASCII case and with white space around it is accepted exactly when name, creator, condition and id are in order, and is stored in lower case with 100 for deny and 200 for allow |
| Lineage.LineageDb.LockAcquire | crates/kc_core/src/lineage.rs:610-665 | A fresh lease, or refusal while another is live, with no other row touched |
| Lineage.LineageDb.LockRelease | crates/kc_core/src/lineage.rs:667-694 | Removes the row only for its own token |
| Lineage.LineageDb.RequireValidLock | crates/kc_core/src/lineage.rs:696-758 | The live lease whose token was presented, or expired, or invalid |
| Lineage.LineageDb.OverlayAdd | crates/kc_core/src/lineage.rs:802-881 | One new overlay under its own id or no change; every check in order |
| Lineage.LineageDb.OverlayRemove | crates/kc_core/src/lineage.rs:894-951 | One overlay less or no change; the lease owner is the subject checked |
| Lineage.AddIgnoresLeaseOwner | crates/kc_core/src/lineage.rs:815-831 | Add never looks at who owns the lease |
| Lineage.LeaseFate | crates/kc_core/src/lineage.rs:610-694 | A lease stays in its row until its token is given back or its time is over |
| Lineage.LeasesAreExclusive | crates/kc_core/src/lineage.rs:610-694 | In every run with a clock that never goes back, no two leases of a document that were not given back are live at once |
| Lineage.InsertionsAreGuarded | crates/kc_core/src/lineage.rs:802-881 | Every overlay that appears was added alone, inside a live lease whose token was presented, for a creator the policies allowed |
| Lineage.RemovalsAreGuarded | crates/kc_core/src/lineage.rs:894-951 | Every overlay that disappears was removed alone, inside a live lease whose owner the policies allowed |
| Lineage.AddedExactly | crates/kc_core/src/lineage.rs:802-881 | An overlay is added if and only if no field is blank, the live lease's token is presented, the creator may write and the id is new; the same edge again is the conflict |
| Lineage.RemovedExactly | crates/kc_core/src/lineage.rs:894-951 | An overlay is removed if and only if it exists and the live lease of its document has the token presented and an owner who may write |
| Lineage.OverlayIdIdentifies | crates/kc_core/src/lineage.rs:760-774 | Without newlines and collisions an overlay id stands for one document and one edge |
| Lineage.TokenIdentifies | crates/kc_core/src/lineage.rs:256-258 | Without newlines in owners and without collisions a token stands for one document, owner and time |
| BundleOrder.DottedSiblingIsRefused | crates/kc_cli/src/verifier.rs:1056-1065 | index/vectors/a/f beside index/vectors/a.b: the exported zip is refused |
| BundleOrder.OrdersAgreeExactly | crates/kc_core/src/export.rs:36-45 | Two files compare alike by component and by joined name if and only if they do not clash |
| BundleOrder.EntriesAreSorted | crates/kc_cli/src/verifier.rs:1056-1065 | The entry-order check accepts exactly the lists in byte order |
| BundleOrder.ZipOrderAcceptedExactly | crates/kc_cli/src/verifier.rs:1056-1065 | An exported zip passes that check if and only if no file lies in a directory whose name a sibling extends with a character below the slash |
| BundleOrder.PlainExportsAreAccepted | crates/kc_core/src/export.rs:340-402 | An export without vectors always passes it, whatever its objects |
| FolderBundle.VerifyFolderBundle | crates/kc_cli/src/verifier.rs:622-854 | The exit code for every bundle: 60, 31, 40, 41 in that precedence, and 0 if and only if database hash, header mode, objects, vault flag and vectors all match |
| FolderBundle.ExportBundle | crates/kc_core/src/export.rs:300-477 | Fails exactly on a nameless database, a bad hash, a missing file or a file in the way of another; otherwise the manifest lists the database, every row and every vector file with hashes of the copied bytes, sorted, and each lies at its path, the last one written where the database's path is also another's |
| FolderBundle.ExportVerifiesExactly | crates/kc_cli/src/verifier.rs:622-854 | For any vault an exported bundle is accepted if and only if the objects agree with its flag and what ended up at the database's path has its digest and the right header |
| FolderBundle.OrdinaryExportVerifiesExactly | crates/kc_cli/src/verifier.rs:622-854 | Where no other file lies at the database's path, accepted if and only if database and objects agree with the two encryption flags |
| FolderBundle.TamperingIsCaught | crates/kc_cli/src/verifier.rs:624-826 | Changing, blocking or removing any listed file of a matching bundle makes it mismatch, short of a collision |
| FolderBundle.UnlistedFilesPlayNoPart | crates/kc_cli/src/verifier.rs:624-826 | Files the manifest does not list never matter |
| FolderBundle.BundleMatchesExactly | crates/kc_cli/src/verifier.rs:622-844 | A bundle is accepted if and only if database, objects and vectors are there with their digests, the header tells the database flag and the marker each object's |
| FolderBundle.CanExportExactly | crates/kc_core/src/export.rs:300-477 | An export works if and only if the database has a name, every row has a hash of the right shape and its object, and no file is in the way of the database's |
| FolderBundle.ManifestListsTheVault | crates/kc_core/src/export.rs:300-477 | The manifest has every row's object once with its path, digest, marker and size, the vector files exactly when asked for, and the vault's flags |
| FolderBundle.HeaderDecidesDb | crates/kc_cli/src/verifier.rs:273-276 | With the right digest a database of 16 bytes or more is accepted if and only if its plain header and its flag disagree |
| EscrowBlock.DescriptorOrderIsTotal | crates/kc_core/src/recovery_escrow.rs:75-84 | The descriptor order is total and transitive, so sorting is well defined |
| EscrowBlock.RecoveryEscrowExportBlock | crates/kc_core/src/export.rs:143-262 | The collecting loop and the block: fails exactly on unreadable or mismatched descriptors |
| EscrowBlock.CollectedIsWhatExports | crates/kc_core/src/export.rs:143-206 | One provider and descriptor per exporting row, and a time no exporting row exceeds |
| EscrowBlock.StrictExactlyWhenNormal | crates/kc_cli/src/verifier.rs:349-363 | Equal to its sorted, deduplicated self if and only if strictly ordered by priority and id |
| EscrowBlock.VerifyRecoveryEscrowMetadata | crates/kc_cli/src/verifier.rs:278-516 | Accepts an enabled block if and only if providers are supported and strictly ordered, descriptors listed and in the one order, the first one primary, and the provider field single or multi; a disabled one if and only if empty |
| EscrowBlock.ExportedBlockAcceptedExactly | crates/kc_cli/src/verifier.rs:278-516 | For any rows, the exported block is accepted if and only if every exporting row names a supported provider |
| EscrowBlock.ProviderOrderIsTold | crates/kc_core/src/recovery_escrow.rs:6-64 | The six supported providers and their priorities 0 to 5, and 9 for any other id |
| EscrowBlock.FirstDifferenceDecides | crates/kc_core/src/recovery_escrow.rs:75-84 | Descriptors compare by priority, reference, key and time, the first difference deciding |
| EscrowBlock.ExportsExactly | crates/kc_core/src/export.rs:143-206 | A row exports if and only if it is enabled and its JSON is an object with the four members of a descriptor |
| EscrowBlock.DescriptorFieldByField | crates/kc_core/src/export.rs:143-206 | A descriptor holds each member of its JSON object under its own name |
| EscrowBlock.CollectedRowByRow | crates/kc_core/src/export.rs:143-206 | Provider and descriptor number k are the id and the decoded JSON of exporting row number k |
| EscrowBlock.TimeIsTheLatest | crates/kc_core/src/export.rs:143-206 | The time is that of some exporting row and no exporting row has a later one |
| Sorting.SortedExactlyWhenFixed | crates/kc_cli/src/verifier.rs:1056-1065 | A stable sort leaves a list as it is if and only if it is sorted: the comparison both verifier order checks make |

## Left out

- Cryptography: the digest, the cipher, key derivation and signatures are parameters with the laws each lemma names.
- Author signatures and trust checks on sync heads; nothing is claimed about a pushed head's signature.
- The emulated S3 lock file, whose exists-then-write is not atomic: the model has the real conditional put of section 13.1.2 of RFC 9110.
- Conflict artifacts, snapshot directories as file trees, and status rows beyond the three a device records.
- DbMigration: a rename is atomic and a failed one changes nothing; only the export and the opening of a database can leave a partial file.
- ObjectStore.Objects.PutBytes: a file write happens or does not; a write cut off midway is not modelled, nor are two processes writing at once.
- ObjectStore.Objects.MigrateObjects: does not append the audit event or compute the status that follow the loop.
- Chunking.ChunkDocument: integers are unbounded, so configurations that overflow 64 bits are not captured.
- Chunking: the `respect_markers` setting takes part in the hash only, as in the code.
- JSON: the nesting limit of the reader, duplicate numerals outside the integer range (they are floats), and byte encoding of strings.
- The event table's row id is assigned, not hashed; events are compared without it.
- LifecycleStore.Vault.AppendDocumentLifecycleEvent: the session and permission lookup is one value with a subject and a verdict.
- The first federation version, retrieval scoring, citations and transport; a candidate's text arrives through a parameter.
- Federation.RunQueryV2: the scan limit on candidates is a precondition, since the query never hands over more; of a fact's value only the document, its time and its text hash are kept, not the snippet or the extractor.
- SyncMerge: the decision trace, with its reason count, and the spelling of reason codes; a reason is a named case.
- SyncDevices.Device.SyncPull: the merge gate is a mode with a verdict, which `SyncMerge.AutoMergeGate` computes; the size limits on snapshots, and a database that does not open after the apply, are not modelled.
- SyncDevices: runs consist of calls that ended well; a pull that broke off is the method's contract only.
- Lineage: scoped locks, role tables, the graph query, and failures of single SQL statements other than constraint violations.
- LineagePolicy: the content of audit details; a row of the audit holds the decision itself.
- BundleOrder: names with backslashes or without a text form, which the exporter rewrites; zip compression, time and mode checks.
- FolderBundle: schema validation and the decoding of the manifest; the verifier starts from its fields. The final sort of the error list is left out.
- FolderBundle.ExportBundle: the database path is a plain relative name, without `.` or `..` parts, and the export directory is new.
- EscrowBlock.VerifyRecoveryEscrowMetadata: the expected and actual texts of a mismatch; only the field found wrong is returned.
- `normalize_provider_configs` and the other escrow validators, status reports, migrations of the schema, and all user interfaces: easy members.
