# Verified models of constellation-nq

This project models the parts of constellation-nq whose correctness is a matter of protocol, state or unbounded input, and
proves what they promise. Each module follows one component:

- **Effect custody** (`AtomicFile`, `EffectDispatch`, `EffectCustody`, `EffectOrder`, `EffectGuest`, `EffectStuck`,
  `EffectProducer`, `EffectReconcile`). The qualification
  producer writes "outcome unknown" durably, issues a one-shot external effect, and resolves the outcome itself or through
  later `reconcile-effect` commands. The model is a step system: the producer, any number of concurrent reconcilers, and an
  environment that crashes processes, loses writes that were not synced, and alters files. Safety is proved for every state
  of every run. The producer and the reconcile command are also written as classes whose methods perform the steps, so that
  what they do is a run of the step system.
- **Run seal** (`RunSeal`). What `seal` writes and what `check_run` accepts.
- **Sealed archive** (`SealedArchive`, `ManifestText`). SEAL binds ARCHIVE.json, which binds MANIFEST.sha256, which binds the
  content; the archive appears at its destination complete or not at all.
- **Streaming history verifiers** (`Paging`, `SavedCheckHistory`, `NotificationHistory`, `MaintenanceHistory`,
  `EvaluationPaging`, `ArchivedHistory`). Paged cursor loops over unbounded logs, proved equal to a whole-history predicate for
  every page size, and what a verified archive therefore says about the database inside it.
- **Finding replay** (`FindingReplay`). The finding transitions of the evaluation history, replayed page by page, in one walk
  that starts at the retention floor, and by a cursor that a long-lived engine carries across commits and expiries. All three
  give the verdict of the whole history.
- **Writer permit and retry** (`WriterPermit`, `RetryBackoff`). The first-in first-out permit under cancellation, and the
  closed form of the backoff.
- **Selections** (`Wildcard`, `Maintenance`, `ConsumerClosure`). The wildcard table, the maintenance precedence, and the
  transitive consumer closure.
- **Interfaces** (`Strings`, `Utf8`, `Decimal`, `Separated`, `QueryParsing`, `EvaluationEndpoint`, `RequestReader`,
  `HtmlEscape`, `SocketFraming`). Query strings, the evaluation endpoint with its resume interval, the
  HTTP request reader (the head of section 2.1 of RFC 9112), HTML escaping, and newline-delimited socket frames.
- **Digest framing** (`DigestFraming`, `SourceClosure`). Which byte strings are fed to SHA-256, and what their digests bind.

SHA-256, JSON, RFC 3339 time parsing, clocks and the external effect owner are parameters. Where a claim needs
SHA-256 to be collision-free, injectivity is a stated hypothesis.

## Findings

Where the code does not have a property it is expected to have, lemmas show a failing run or input and state exactly when the
property holds.

- The recorded effect outcome can move backwards when reconciles overlap each other or the producer; the readable one moves
  forward one step at a time exactly under the discipline in `EffectOrder.ForwardIffSerialized`. The one that survives a power
  loss can besides skip "unknown", exactly when a reconcile may start on a record that is not yet synced
  (`EffectOrder.UnsyncedReconcileSkipsUnknown`, `EffectOrder.DurableForwardIffSynced`).
- The owner is told whatever dispatch file is in the guest: `execute` never checks it, and a reconcile checks it once and lets
  the owner read it again (`EffectGuest.ExecuteReadsWhateverIsThere`, `EffectGuest.ReconcileReadsAgain`). The exact condition is
  `EffectGuest.CallsCarryTheRetainedDispatch`.
- A temporary file left by a crash, or a retained indeterminate reply, leaves an unknown outcome that no reconcile can resolve.
  Both happen (`EffectStuck.StalePartialHappens`, `EffectStuck.IndeterminateEvidenceHappens`), and
  `EffectStuck.ResolvableIffOpen` says exactly when reconciling can still help.
- The remote check joins two tests with `;`, so the plan file in the guest is not compared (`EffectDispatch.GuestPlanIsUnchecked`).
- The walks of `seal` and `check_run` skip the names ARTIFACTS.sha256 and RESULT.json at every depth
  (`RunSeal.ReservedBelowRootIsUnseen`), and `seal` accepts links that `check_run` refuses: a tree of one link is sealed and
  then refused (`RunSeal.SealLink`); exactly which sealed trees reopen is `RunSeal.Run.Seal`.
- The evaluation comparison refuses a sound store exactly when something is committed before its second bound is frozen
  (`EvaluationPaging.CompareEvaluations`); one row committed between the walks suffices
  (`EvaluationPaging.CommitBetweenWalks`).
- The resume interval of an expired-history response is refused in turn exactly when the reader's own bound lies above the
  latest sequence, or a row is damaged (`EvaluationEndpoint.ResumeIsServedIff`, `EvaluationEndpoint.ResumeCanBeRefused`).
- The event-number counter refuses a saved-check log of 4294967295 or more events although every event is in order
  (`SavedCheckHistory.LongLogIsRefused`).
- For a head that ends at offsets 7170 to 8192 of a stream longer than 8192 bytes, and for no other, the size verdict depends on
  how the transport cuts the stream (`RequestReader.SizeVerdict`). The encoding verdict depends on it as well, because all that
  was read must be UTF-8: a body character that the completing read cuts refuses a valid head (`RequestReader.BodyDecides`).
  When every cutting of a stream is accepted, and when some cutting is, is `RequestReader.RequestVerdict`.
- Two requests that arrive in one `recv` are refused although each is a valid frame (`SocketFraming.TogetherIsRefused`); exactly
  which arrivals are served is `SocketFraming.Serve`.
- The closure digest does not bind every name. A backslash is hashed as a separator (`SourceClosure.BackslashCollides`), and
  bytes that are not UTF-8 as a replacement character (`SourceClosure.InvalidNamesCollide`): two listings, one digest. Over a
  class of names closed under that rewriting the digest binds every listing exactly when all names are valid UTF-8 without a
  backslash (`SourceClosure.ClosureDigestBindsIffPlain`).

## Model

| member | source | states |
|---|---|---|
| `EffectCustody.RunSafe` | qualification/operator-beta-m1b-v1/run_two_vm.py:1573-1649 | every state of every run (crashes, lost unsynced writes, file tampering and any number of concurrent reconciles included) keeps the custody invariant |
| `EffectCustody.ExecuteOnceAfterDurableUnknown` | qualification/operator-beta-m1b-v1/run_two_vm.py:1573-1649 | over every run, `execute` is issued at most once and only while the durable record says the outcome is unknown; every later call is a reconcile |
| `EffectCustody.RecordIsTruthful` | qualification/operator-beta-m1b-v1/run_two_vm.py:2081-2128 | in every reachable state both the visible and the durable record are true: "no effect attempted" only before `execute`, a known outcome only if some reply of the owner about the attempt in the record says "success" or "failure" |
| `EffectCustody.KillIsSafe` | qualification/operator-beta-m1b-v1/run_two_vm.py:2108-2128 | guests have been terminated only if no effect was attempted or some reply about the attempt says "failure", and then that outcome is already durable |
| `EffectCustody.RunLogged` | qualification/operator-beta-m1b-v1/run_two_vm.py:2203-2299 | over every run, each class that counts as reported stands in a logged reply about the attempt in custody |
| `EffectCustody.StepSafe` | qualification/operator-beta-m1b-v1/run_two_vm.py:2203-2299 | each single step of the producer, a reconciler or the environment keeps the invariant |
| `EffectOrder.ForwardIffSerialized` | qualification/operator-beta-m1b-v1/run_two_vm.py:2203-2299 | the readable outcome moves along "no effect attempted", "unknown", "known" one step at a time in every run exactly when reconciles run one at a time and either after the producer is gone or against an owner that never contradicts itself; a power loss that drops an unsynced rename is not counted as a move |
| `EffectOrder.OverlappingReconcilesRegress` | qualification/operator-beta-m1b-v1/run_two_vm.py:2269-2298 | two overlapping reconciles reach states whose next step turns a known outcome back into unknown, as read and as it survives |
| `EffectOrder.StaleReconcileRegresses` | qualification/operator-beta-m1b-v1/run_two_vm.py:2203-2299 | a reconcile that read the record while the producer was still alive can overwrite the producer's known outcome, as read and as it survives |
| `EffectOrder.RunOrdered` | qualification/operator-beta-m1b-v1/run_two_vm.py:2203-2299 | under the discipline above every reachable state keeps every pending write at or ahead of the record |
| `EffectOrder.DurableForwardIffSynced` | qualification/operator-beta-m1b-v1/run_two_vm.py:2203-2299 | the outcome that survives a power loss moves along the chain in every run exactly when, besides, reconciles start on a synced record |
| `EffectOrder.UnsyncedReconcileSkipsUnknown` | qualification/operator-beta-m1b-v1/run_two_vm.py:382-398 | after a crash between rename and sync, a reconcile takes the durable outcome from "no effect attempted" to "known" at once |
| `EffectStuck.StalePartialFreezesRecord` | qualification/operator-beta-m1b-v1/run_two_vm.py:382-398 | with the producer gone, no reconcile running and a `.partial` file left behind, RECOVERY.json keeps one of its two current contents in every later state; only a power loss or a write-back can still choose between them |
| `EffectStuck.IndeterminateEvidenceIsFinal` | qualification/operator-beta-m1b-v1/run_two_vm.py:2277-2288 | with the producer gone, no reconcile running and an indeterminate reply retained, no later state of any run records a known outcome |
| `EffectStuck.ResolvableIffOpen` | qualification/operator-beta-m1b-v1/run_two_vm.py:2203-2299 | a retained unknown that is left alone can still be resolved by some sequence of reconcile commands exactly when the question may be asked, no temporary RECOVERY.json is left, and the retained reply is definite or, without one, no temporary evidence file is left |
| `EffectStuck.StalePartialHappens` | qualification/operator-beta-m1b-v1/run_two_vm.py:2108-2128 | a run that leaves a temporary RECOVERY.json behind while everything else allows a reconcile |
| `EffectStuck.IndeterminateEvidenceHappens` | qualification/operator-beta-m1b-v1/run_two_vm.py:2277-2288 | a run that retains an indeterminate reply while everything else allows a reconcile |
| `EffectGuest.CallsCarryTheRetainedDispatch` | qualification/operator-beta-m1b-v1/run_two_vm.py:1616-1621 | in every run, every owner call carries the dispatch whose digest is in custody, and so names the attempt and marker in custody, exactly when the guest file is the installed one at `execute` and the compared one at each reconcile |
| `EffectGuest.ExecuteReadsWhateverIsThere` | qualification/operator-beta-m1b-v1/run_two_vm.py:1616-1621 | a run in which the guest file changes after its installation and `execute` sends other bytes |
| `EffectGuest.ReconcileReadsAgain` | qualification/operator-beta-m1b-v1/run_two_vm.py:2256-2268 | a run in which the guest file changes after the comparison and the reconcile sends other bytes |
| `EffectDispatch.DispatchIdentity` | qualification/operator-beta-m1b-v1/run_two_vm.py:477-493 | no attempt identity equals any marker identity, and equal attempts come from the same run id and the same canonical plan |
| `EffectDispatch.VerdictIsWhatItSays` | qualification/operator-beta-m1b-v1/run_two_vm.py:496-508 | a reply is judged success, failure or indeterminate exactly when its four fields spell that statement about the attempt and marker |
| `EffectDispatch.AdmittedIffAsPrepared` | qualification/operator-beta-m1b-v1/run_two_vm.py:2228-2260 | a reconcile is admitted exactly in a run root whose inputs, plan, dispatch, custody and guest dispatch are those `enact` left for this run, up to a final newline |
| `EffectDispatch.DispatchText` | qualification/operator-beta-m1b-v1/run_two_vm.py:477-493 | the digests that are attempt and marker, and the subject and scope, spelled out |
| `EffectDispatch.AdmittedDispatchIsRetained` | qualification/operator-beta-m1b-v1/run_two_vm.py:2203-2260 | a reconcile that is admitted uses the retained attempt and marker, and the guest holds exactly those dispatch bytes |
| `EffectDispatch.GuestPlanIsUnchecked` | qualification/operator-beta-m1b-v1/run_two_vm.py:2256-2260 | the remote check joins two tests with `;`, so the verdict does not depend on the plan file in the guest |
| `AtomicFile.RunDirectory.AtomicWrite` | qualification/operator-beta-m1b-v1/run_two_vm.py:382-398 | succeeds exactly without a fault and a leftover partial file, and then the new bytes are durable; at every moment the target holds its old or its complete new bytes |
| `EffectProducer.Producer.State` | qualification/operator-beta-m1b-v1/run_two_vm.py:708-769 | a state write that returns has made exactly the current outcome and custody visible and durable; it fails exactly on a fault or a leftover partial file |
| `EffectProducer.Producer.Invoke` | qualification/operator-beta-m1b-v1/run_two_vm.py:1616-1636 | asks the owner exactly once, with the dispatch bytes that are in the guest at that moment; the outcome is known success exactly when the reply is closed, carries the attempt and marker in custody and a well-formed receipt, and says "success", known failure likewise for "failure", and unknown otherwise; nothing is written |
| `EffectProducer.Producer.Enact` | qualification/operator-beta-m1b-v1/run_two_vm.py:1573-1649 | the owner is asked exactly when the unknown outcome was durably recorded first; the outcome is what the text of the reply says, and it succeeds exactly on a success that is durable |
| `EffectProducer.Producer.OnException` | qualification/operator-beta-m1b-v1/run_two_vm.py:2108-2128 | guests are terminated exactly when the refusal record was written and the outcome is "no effect attempted" or "known no effect" |
| `EffectProducer.Producer.Execute` | qualification/operator-beta-m1b-v1/run_two_vm.py:2081-2128 | for every combination of faults the whole run is a run of the step system, and its owner calls, final outcome, completion and termination of guests are exactly determined |
| `EffectReconcile.RunRoot.ReconcileEffect` | qualification/operator-beta-m1b-v1/run_two_vm.py:2203-2299 | one undisturbed command asks exactly when record, processes and retained inputs admit it; it reports an answer exactly when the reply says something about the attempt, does not differ from the retained one, and every write succeeds; then the durable outcome is what the text of the reply says about the attempt in the record; otherwise the durable record is unchanged |
| `EffectReconcile.RunRoot.Begin` | qualification/operator-beta-m1b-v1/run_two_vm.py:2203-2260 | the checks before the question admit exactly the retained attempt, and a refusal leaves no trace |
| `EffectReconcile.RunRoot.Question` | qualification/operator-beta-m1b-v1/run_two_vm.py:2261-2280 | a reply is taken exactly when its text says success, failure or indeterminate about the attempt and it does not differ from the retained one; the outcome is what it says |
| `EffectReconcile.RunRoot.Retain` | qualification/operator-beta-m1b-v1/run_two_vm.py:2277-2282 | the reply is retained once; it fails exactly on a fault or a leftover partial file |
| `EffectReconcile.RunRoot.Conclude` | qualification/operator-beta-m1b-v1/run_two_vm.py:2283-2298 | the new record is the loaded one with the reported outcome, durable exactly when no fault strikes and no partial file is left over |
| `RunSeal.Run.Seal` | qualification/operator-beta-m1b-v1/run_two_vm.py:2025-2065 | the sealed directory reopens exactly when it holds 1 to 4096 covered files, each a regular non-link file within 2 GiB (the two documents within the bound as well); nothing else in the tree changes |
| `RunSeal.Run.Inventory` | qualification/operator-beta-m1b-v1/run_two_vm.py:2047-2058 | one entry per covered file and no other, for any order of the walk |
| `RunSeal.Run.Check` | qualification/operator-beta-m1b-v1/run_two_vm.py:2919-2994 | accepts exactly when canonical, bound documents describe the covered files exactly |
| `RunSeal.CheckInventory` | qualification/operator-beta-m1b-v1/run_two_vm.py:2940-2963 | the entry loop and the set comparison accept exactly when each entry describes its file, none repeats, and each covered file has one |
| `RunSeal.ExactIffInventoried` | qualification/operator-beta-m1b-v1/run_two_vm.py:2940-2963 | an inventory is exact when every file, or link to one, outside the two documents is a regular file of at most 2 GiB whose entry states its path, length and digest, and there is no other entry |
| `RunSeal.SealBindsCoveredFiles` | qualification/operator-beta-m1b-v1/run_two_vm.py:2940-2994 | beside the same manifest and result, a later tree reopens if and only if its covered files are the sealed ones, byte for byte |
| `RunSeal.ResultBindsCoveredFiles` | qualification/operator-beta-m1b-v1/run_two_vm.py:2993-2994 | two directories that reopen with the same RESULT.json hold the same manifest and the same covered files |
| `RunSeal.ReservedBelowRootIsUnseen` | qualification/operator-beta-m1b-v1/run_two_vm.py:2048-2050 | files named like the two documents below the root can be added, changed or removed without changing the verdict |
| `RunSeal.LinkIsNotSealable` | qualification/operator-beta-m1b-v1/run_two_vm.py:2048-2050 | a tree with a link to a file in a covered place cannot be sealed so that it reopens |
| `RunSeal.SealLink` | qualification/operator-beta-m1b-v1/run_two_vm.py:2047-2065 | a tree of one link to a file is sealed, and `check_run` refuses the result |
| `RunSeal.PosixLocates` | qualification/operator-beta-m1b-v1/run_two_vm.py:2945-2947 | the path written for a file is safe and leads back to that file |
| `RunSeal.ExactDetermines` | qualification/operator-beta-m1b-v1/run_two_vm.py:2940-2963 | one inventory that is exact for two trees makes their covered files equal |
| `RunSeal.ExactDependsOnCovered` | qualification/operator-beta-m1b-v1/run_two_vm.py:2957-2963 | exactness of an inventory depends on the covered files only |
| `SealedArchive.CheckManifest` | crates/nq-app/src/archive.rs:754-789 | accepts exactly the manifests with one line per content file, in order, each with the digest of that file |
| `SealedArchive.ManifestOkIffSpelled` | crates/nq-app/src/archive.rs:754-789 | the accepted manifests are the texts that spell the four lines "digest  path" in order, each ended by a newline or a carriage return and a newline, the last one also by nothing |
| `SealedArchive.WriteManifest` | crates/nq-app/src/archive.rs:740-752 | writes one line per content file in the fixed order |
| `SealedArchive.WrittenManifestIsOk` | crates/nq-app/src/archive.rs:740-789 | what is written for a set of files is accepted for the same files |
| `SealedArchive.VerifyArchive` | crates/nq-app/src/archive.rs:960-1106 | accepts exactly the complete archives: closed inventory, unbroken digest chain, own identity, permission digits of the binary, and a database claim that reopening the sealed bytes confirms; returns that retention boundary |
| `SealedArchive.PermissionsDecide` | crates/nq-app/src/archive.rs:1040-1047 | when nothing else is wrong, the archive verifies exactly when the owner digit of bin/nq is odd and the group and other digits are 0, 1, 4 or 5 |
| `SealedArchive.VerifiedEntries` | crates/nq-app/src/archive.rs:1049-1065 | a verified archive holds exactly the ten named entries, and its seal is "sha256:" and the digest of ARCHIVE.json |
| `SealedArchive.SealBindsArchive` | crates/nq-app/src/archive.rs:960-1063 | two archives that verify with the same SEAL have the same entries and the same bytes in every file |
| `SealedArchive.ChangedArchiveIsRefused` | crates/nq-app/src/archive.rs:960-1063 | any addition, removal or change of anything but SEAL makes verification refuse |
| `SealedArchive.StagedVerifies` | crates/nq-app/src/archive.rs:830-919 | a freshly staged archive verifies exactly when what it claims about the database is true of the sealed bytes |
| `SealedArchive.ArchiveParent.CreateArchive` | crates/nq-app/src/archive.rs:797-828 | at every moment the destination is absent or a complete archive that verifies; success is characterised exactly, an existing destination is untouched, and a failure leaves no destination |
| `SealedArchive.ArchiveParent.BuildStaging` | crates/nq-app/src/archive.rs:830-919 | staging never touches the destination and succeeds exactly when the source can be copied and the staged archive verifies |
| `SealedArchive.ArchiveParent.StageDatabase` | crates/nq-app/src/archive.rs:831-874 | copies the database exactly when the source did not refuse and both it and its backup hold sound history |
| `SealedArchive.ArchiveParent.SealStaging` | crates/nq-app/src/archive.rs:884-919 | completes the staged tree and reports exactly whether it verifies |
| `ManifestText.LinesOfUnlines` | crates/nq-app/src/archive.rs:740-789 | splitting into lines undoes joining with newlines |
| `ManifestText.LinesIffSpelled` | crates/nq-app/src/archive.rs:754-789 | a text has given plain lines exactly when it spells them with newlines, or carriage returns and newlines, between them |
| `ManifestText.SplitOnceOfEntry` | crates/nq-app/src/archive.rs:757-768 | splitting a manifest line at its first double space gives back digest and path |
| `ManifestText.SplitOnce` | crates/nq-app/src/archive.rs:757-768 | splits at the first double space, or reports that there is none |
| `SavedCheckHistory.ValidateHistory` | crates/nq-app/src/archive.rs:394-551 | for every page size, accepts exactly the stores whose every definition and whole log satisfy the simple predicate; the counts are the table sizes |
| `SavedCheckHistory.ValidateEvents` | crates/nq-app/src/archive.rs:430-545 | for every page size, accepts exactly the logs that are consecutive, installed first and once, then claims with a binding and refusals, passes and failures of claimed evaluations, and nothing else; counts the log |
| `SavedCheckHistory.CheckTerminal` | crates/nq-app/src/archive.rs:495-528 | a terminal event is accepted exactly when an earlier event of the same definition claims the same evaluation with an equal binding |
| `SavedCheckHistory.CheckRow` | crates/nq-app/src/archive.rs:442-537 | one event is accepted exactly when it meets the predicate at its position and its number leaves room for a successor |
| `SavedCheckHistory.ClaimCanBeSettled` | crates/nq-app/src/archive.rs:495-528 | an accepted log that ends in a claim stays accepted when the claim is refused, passed or failed with its binding, and with no other outcome but a new claim |
| `SavedCheckHistory.CheckDefinitions` | crates/nq-app/src/archive.rs:405-446 | a page of definitions extends the checked prefix of the table exactly |
| `SavedCheckHistory.HistoryOkIsForAll` | crates/nq-app/src/archive.rs:394-551 | the accepted stores are those whose every definition is in order |
| `SavedCheckHistory.EventsOkIsForAll` | crates/nq-app/src/archive.rs:430-545 | the accepted logs are those whose every event is in order |
| `SavedCheckHistory.LongLogIsRefused` | crates/nq-app/src/archive.rs:449-451 | for every length there is a log whose events are all in order, and it is accepted exactly when it is shorter than 4294967295 |
| `NotificationHistory.ValidateHistory` | crates/nq-app/src/archive.rs:598-709 | for every page size, accepts exactly the stores whose every delivery is in order; the counts are the table sizes |
| `NotificationHistory.FoldEvents` | crates/nq-app/src/archive.rs:639-684 | for every page split, accepts exactly [], [claimed], [refused] and [claimed, failed, unknown or accepted], and computes the fold of the log |
| `NotificationHistory.CheckRow` | crates/nq-app/src/archive.rs:652-682 | one more event is accepted exactly when the extended log still has an admitted shape |
| `NotificationHistory.ShapeByOutcomes` | crates/nq-app/src/archive.rs:652-682 | the admitted logs are the six lists of outcomes, numbered from 1 |
| `NotificationHistory.CheckDelivery` | crates/nq-app/src/archive.rs:611-700 | the stored state and count must equal the fold of the log |
| `NotificationHistory.ViewAgrees` | crates/nq-store/src/schema_v5_to_v12_local_checks_notifications.sql:3 | on every log of an admitted shape the status view equals the fold |
| `NotificationHistory.ViewNeedsShape` | crates/nq-store/src/schema_v5_to_v12_local_checks_notifications.sql:3 | a log of another shape on which the view and the fold differ |
| `NotificationHistory.ViewMakesStatusRedundant` | crates/nq-store/src/lib.rs:5611-5617 | when the status comes from the view, the status comparison never refuses anything the shape check admits |
| `NotificationHistory.HistoryOkIsForAll` | crates/nq-app/src/archive.rs:598-709 | the accepted stores are those whose every delivery is in order |
| `MaintenanceHistory.ValidateHistory` | crates/nq-app/src/archive.rs:553-592 | for every page size, accepts exactly when every declaration is valid, and counts the table |
| `MaintenanceHistory.DeclarationPage` | crates/nq-store/src/lib.rs:8349-8380 | the page after a two-part cursor is the next declarations in key order |
| `MaintenanceHistory.BeforeIsStrict` | crates/nq-store/src/lib.rs:8349-8380 | the two-part declaration key is a strict total order |
| `Paging.PageByNumber` | crates/nq-store/src/lib.rs:8260-8283 | the page after a number cursor is the next rows of the log, at most the limit |
| `Paging.PageById` | crates/nq-store/src/lib.rs:8238-8257 | the page after an id cursor is the next rows in key order, at most the limit |
| `Paging.LessIffPrecedes` | crates/nq-app/src/saved_check.rs:151-166 | the byte order of ids is decided at the first difference: the smaller character, or the end, comes first |
| `Paging.PageAfter` | crates/nq-store/src/lib.rs:8238-8283 | filtering by a cursor that splits the rows returns the next slice |
| `Paging.CursorSplits` | crates/nq-store/src/lib.rs:8238-8283 | in rows of ascending keys the cursor of the last row read separates read from unread |
| `EvaluationPaging.EvaluationStore.Page` | crates/nq-core/src/engine.rs:9897-10037 | an expired range, a range that is not present and a page with a hole are told apart; a page is returned exactly when the range lies within floor and latest and every row of the page is present and reopens; says when the page is the last |
| `EvaluationPaging.CountPublic` | crates/nq-app/src/archive.rs:302-341 | with rows arriving between pages, terminates and counts exactly the rows above the floor up to the first page's frozen bound |
| `EvaluationPaging.PageExactIffContiguous` | crates/nq-core/src/engine.rs:9944-9977 | the page-exactness test holds exactly when no sequence number of the page is missing |
| `EvaluationPaging.IslandsCompleteTheTotal` | crates/nq-app/src/archive.rs:342-350 | count plus declared islands equals the total exactly when no row is missing |
| `EvaluationPaging.HeldCount` | crates/nq-app/src/archive.rs:342-350 | an interval holds as many rows as numbers exactly when none is missing |
| `EvaluationPaging.CompareEvaluations` | crates/nq-app/src/archive.rs:291-350 | typed walk, arrivals, public walk and comparison accept exactly when the history is sound at the typed bound and nothing is committed before the public bound is frozen |
| `EvaluationPaging.CommitBetweenWalks` | crates/nq-app/src/archive.rs:342-350 | a sound store of one evaluation is refused when a second one is committed between the walks |
| `FindingReplay.Step` | crates/nq-core/src/engine.rs:10798-10855 | an evaluation is accepted exactly when it makes the transition its lineage's finding calls for; only that lineage's finding changes, to the event |
| `FindingReplay.LawfulHistory` | crates/nq-core/src/engine.rs:10798-10855 | a whole history is accepted exactly when every present evaluation carries an event, one that cannot be evaluated carries one exactly after its lineage was present, one explicitly absent exactly when the latest event of its lineage says otherwise, and the events of a lineage are numbered 1, 2, 3, open with the first and name one finding |
| `FindingReplay.PriorIsLatest` | crates/nq-store/src/lib.rs:7565-7610 | the prior finding is the latest event of the lineage at or before the cursor |
| `FindingReplay.ReplayPage` | crates/nq-core/src/engine.rs:9979-10020 | a page, with the findings looked up at its cursor, is accepted exactly when each of its evaluations on its own follows the latest event before it, from a positive revision |
| `FindingReplay.ReplayPages` | crates/nq-core/src/engine.rs:9979-10020 | for every page size the pages above the floor are accepted exactly when all their evaluations follow |
| `FindingReplay.SaneIffLawful` | crates/nq-core/src/engine.rs:9991-9996 | the pages ask for no more than the one walk does, except a positive revision at the floor for each lineage met above it; before any expiry they ask for the same |
| `FindingReplay.SeedAtFloor` | crates/nq-core/src/engine.rs:10724-10748 | a lineage met first is looked up at the floor once, and no other lineage changes |
| `FindingReplay.VisitRow` | crates/nq-core/src/engine.rs:10702-10715 | one evaluation of the walk is accepted exactly when it follows all evaluations before it, expired ones included; the carried heads stay those of the whole history |
| `FindingReplay.Visit` | crates/nq-core/src/engine.rs:10664-10720 | from right heads anywhere above the floor, and for every page size, accepts exactly the lawful evaluations up to the bound and ends with right heads there |
| `FindingReplay.FoldIslands` | crates/nq-core/src/engine.rs:10354-10371 | folding in the evaluations kept below the floor leaves the findings alone and keeps the newest positions right |
| `FindingReplay.PrunedHeads` | crates/nq-core/src/engine.rs:10502-10534 | dropping the heads of lineages without an evaluation above a raised floor leaves what a replay from that floor ends with |
| `FindingReplay.Engine.Commit` | crates/nq-store/src/lib.rs:14165-14184 | an evaluation committed by another writer is numbered and appended, and a cursor stays right |
| `FindingReplay.Engine.Expire` | crates/nq-store/src/retention.rs:1139-1240 | an expiry raises the floor and the generation; a cursor of an older generation stays right at its own floor |
| `FindingReplay.Engine.Establish` | crates/nq-core/src/engine.rs:10419-10445 | succeeds exactly when the whole history above the floor is lawful |
| `FindingReplay.Engine.Prune` | crates/nq-core/src/engine.rs:10502-10534 | follows an expiry without replaying: a cursor at or above the floor stays right, one behind it is dropped |
| `FindingReplay.Engine.Ensure` | crates/nq-core/src/engine.rs:10538-10555 | a cursor of the current generation is at hand afterwards, unless there was none to follow and the history is not lawful |
| `FindingReplay.Engine.Advance` | crates/nq-core/src/engine.rs:10457-10494 | in every state that commits and expiries reach, replaying only what was appended accepts exactly when a replay of the whole history above the floor would, and ends with its findings |
| `FindingReplay.OneReplay` | crates/nq-core/src/engine.rs:10457-10494 | a replay up to one bound from one floor ends with one map of findings |
| `EvaluationPaging.CountTyped` | crates/nq-core/src/engine.rs:10664-10720 | the typed walk accepts exactly when every row below its bound validates, and counts them |
| `ArchivedHistory.ValidateHistoricalSemantics` | crates/nq-app/src/archive.rs:291-380 | on a database nobody writes to, accepts exactly when evaluations, saved checks, declarations and deliveries are all in order |
| `ArchivedHistory.VerifiedArchiveHoldsHistory` | crates/nq-app/src/archive.rs:960-1106 | an archive that verifies and claims an openable source holds four histories in order, with the retention boundary it declares |
| `ArchivedHistory.ArchivedExactlyWhenHeld` | crates/nq-app/src/archive.rs:830-919 | a staged archive of an opened store verifies exactly when the frozen copy holds histories in order with the live boundary |
| `WriterPermit.RunKeepsInv` | crates/nq-app/src/daemon.rs:462-476 | every interleaving of arrivals, cancellations, wake-ups, starts and finishes keeps the permit, queue and order invariant |
| `WriterPermit.OnePermit` | crates/nq-app/src/daemon.rs:462-476 | in every reachable state free permits plus holders are exactly one |
| `WriterPermit.CancelKeepsThePermit` | crates/nq-app/src/daemon.rs:462-476 | cancelling the waiter of a spawned or running operation changes nothing but who awaits it |
| `WriterPermit.WaitersCanGiveUp` | crates/nq-app/src/daemon.rs:462-476 | in every interleaving whoever arrives can be cancelled, and is out of the way for good if the permit has not moved into its operation |
| `WriterPermit.StartsInArrivalOrder` | crates/nq-app/src/daemon.rs:462-476 | operations start in arrival order, and an earlier arrival that has not started was cancelled |
| `WriterPermit.PermitReturns` | crates/nq-app/src/daemon.rs:466-476 | in every run, after an operation finishes with any result the permit is free and nobody waits, or it is held by the least-numbered operation that has neither started nor been cancelled |
| `WriterPermit.EveryWaiterCanStart` | crates/nq-app/src/daemon.rs:462-476 | from every reachable state some continuation starts every queued operation, in queue order |
| `RetryBackoff.Delays` | crates/nq-app/src/daemon.rs:313-353 | for every outcome trace each delay is the closed form of the current failure streak, or the interval after a success |
| `RetryBackoff.DoublingStep` | crates/nq-app/src/daemon.rs:331-335 | saturating doubling with the cap is the next term of the closed form, so saturation is never visible |
| `RetryBackoff.StreakIsMonotone` | crates/nq-app/src/daemon.rs:313-353 | with the initial delay within the cap, delays in a streak never decrease and never exceed the cap |
| `RetryBackoff.AdmittedStreaksNeverShrink` | crates/nq-core/src/config.rs:735-760 | for every schedule the configuration loader admits and every trace, delays within a failure streak never decrease and never exceed the cap |
| `Wildcard.WildcardMatches` | crates/nq-app/src/saved_check.rs:169-187 | the row-by-row table answers exactly whether the subject splits into one piece per pattern byte |
| `Wildcard.NextRow` | crates/nq-app/src/saved_check.rs:174-184 | each new row holds the table cells of the longer pattern |
| `Wildcard.CellIsMatch` | crates/nq-app/src/saved_check.rs:169-187 | each table cell says whether the prefixes match |
| `Maintenance.Annotate` | crates/nq-app/src/saved_check.rs:111-167 | refuses exactly when a declaration is invalid; otherwise the answer is an active match such that none was recorded later, or at the same instant with a greater id; else an expired one such that none ends later, or at the same instant was recorded later or has a greater id; else none |
| `Maintenance.Validate` | crates/nq-app/src/saved_check.rs:392-425 | accepts exactly the declarations with bounded fields and a window between two UTC instants |
| `Maintenance.CheckBounded` | crates/nq-app/src/saved_check.rs:352-357 | accepts exactly the texts of 1 to `max` bytes of UTF-8 without control characters |
| `Maintenance.Classify` | crates/nq-app/src/saved_check.rs:120-150 | a declaration goes to the active or expired list exactly when it is active or expired for the query |
| `Maintenance.First` | crates/nq-app/src/saved_check.rs:151-166 | the first of the sorted list is a candidate that no other beats |
| `Maintenance.AnswerIsUnique` | crates/nq-app/src/saved_check.rs:111-167 | with distinct ids the specification has one answer |
| `Maintenance.OrderDoesNotMatter` | crates/nq-app/src/saved_check.rs:111-167 | permuting the declarations does not change the answer |
| `Maintenance.AnnotatedIffBegun` | crates/nq-app/src/saved_check.rs:111-167 | there is an annotation exactly when some in-scope declaration was declared and has begun |
| `Maintenance.AnnotationPersists` | crates/nq-app/src/saved_check.rs:111-167 | as time advances an annotation never reverts to none |
| `ConsumerClosure.Affected` | system-contract/verify_assets.py:275-282 | the loop ends and computes exactly the components reachable from the actuated ones |
| `ConsumerClosure.Pass` | system-contract/verify_assets.py:278-280 | one pass adds only reachable components, and adds none only if the set is closed |
| `ConsumerClosure.AffectedIsLeastClosed` | system-contract/verify_assets.py:275-289 | the result is the least set that holds the start and is closed from provider to consumer |
| `ConsumerClosure.OrderDoesNotMatter` | system-contract/verify_assets.py:275-282 | the order and repetition of dependencies do not matter |
| `ConsumerClosure.UnionOfClosures` | system-contract/verify_assets.py:275-282 | the closure of a union is the union of the closures |
| `ConsumerClosure.BoundaryConsumersAreAffected` | system-contract/verify_assets.py:296-303 | boundary dependencies are exactly the dependencies whose consumer is affected |
| `ConsumerClosure.ObligationsCoverTheClosure` | system-contract/verify_assets.py:304-310 | the selected obligations are exactly those of reachable components |
| `ConsumerClosure.TargetsHostTheClosure` | system-contract/verify_assets.py:290-295 | the projected targets are exactly the hosts of reachable components |
| `ConsumerClosure.CheckPorter` | system-contract/verify_assets.py:259-310 | accepts exactly the projections whose targets, components, boundary and obligations are, in the order of the cut, those that reachability from the actuated components requires |
| `QueryParsing.Parse` | crates/nq-app/src/api.rs:489-683 | the three parsers accept exactly the renderings of distinct legal parameters, in any order, and return what these denote; a missing query means the defaults |
| `QueryParsing.ParameterSpelling` | crates/nq-app/src/api.rs:620-668 | a parameter is accepted exactly when it is the rendering of a legal one |
| `QueryParsing.TokenIsText` | crates/nq-app/src/api.rs:696-701 | a cursor token is 1 to 255 of the listed letters, digits and marks |
| `QueryParsing.OneMeaning` | crates/nq-app/src/api.rs:602-683 | a query string denotes at most one query |
| `QueryParsing.AnyOrderRoundTrips` | crates/nq-app/src/api.rs:602-683 | printing parameters in any order and reading them back gives the same query |
| `QueryParsing.ResumeIsAccepted` | crates/nq-app/src/api.rs:391-407 | the interval of an expired-history response is in the language of the query parser exactly when the latest sequence or the reader's own usable bound reaches the floor |
| `EvaluationEndpoint.Respond` | crates/nq-app/src/api.rs:261-306 | every request, with or without a query string, gets the one response its parse and the store decide: a page, 400, 410 with the resume interval, or a failure |
| `EvaluationEndpoint.CursorIsNamed` | crates/nq-app/src/api.rs:261-306 | the cursor handed to the engine is the sequence number the request names, if it names one |
| `EvaluationEndpoint.ResumeIsServedIff` | crates/nq-app/src/api.rs:391-407 | the resume interval of a 410 response is served exactly when its bound is not above the latest sequence and its first page is intact; the bound is above it exactly when the reader's own one was |
| `EvaluationEndpoint.ResumeCanBeRefused` | crates/nq-app/src/api.rs:391-407 | floor 5, latest 7 and a requested bound of 1000000: the resume interval is refused in turn |
| `QueryParsing.SpellsIffPiecesParse` | crates/nq-app/src/api.rs:619-626 | a text spells parameters exactly when its pieces parse to them |
| `Decimal.OneSpelling` | crates/nq-app/src/api.rs:685-691 | an accepted decimal is the printed form of its value |
| `Decimal.DigitsAreCanonical` | crates/nq-app/src/api.rs:685-691 | a printed number is canonical and reads back as itself |
| `Separated.SplitOfJoin` | crates/nq-app/src/api.rs:619 | splitting undoes joining pieces that hold no separator |
| `Separated.JoinOfSplit` | crates/nq-app/src/api.rs:619 | joining undoes splitting, and no piece holds the separator |
| `RequestReader.ReadRequest` | crates/nq-app/src/api.rs:703-720 | succeeds exactly when the read that completes the head leaves at most 8192 bytes of valid text, and returns the bytes up to that read |
| `RequestReader.SmallHeadFits` | crates/nq-app/src/api.rs:703-720 | a head that ends by offset 7169 is never refused for its size, however the stream is cut |
| `RequestReader.LargeHeadNeverFits` | crates/nq-app/src/api.rs:712-714 | a head that ends after offset 8192 is always refused |
| `RequestReader.VerdictDependsOnReads` | crates/nq-app/src/api.rs:703-720 | a head that ends between offsets 7170 and 8192 of a longer stream than 8192 bytes is accepted in full reads and refused when the first read is a single byte |
| `RequestReader.SizeVerdict` | crates/nq-app/src/api.rs:703-720 | some cutting of the stream passes the size check exactly when the head ends by offset 8192; every cutting does exactly when it ends by offset 7169, or by 8192 in a stream of at most 8192 bytes |
| `RequestReader.RequestVerdict` | crates/nq-app/src/api.rs:703-720 | some cutting of a stream is accepted exactly when the head ends by offset 8192 and is UTF-8; every cutting is exactly when besides the bytes a full read can deliver behind the head end by offset 8192 and are ASCII |
| `RequestReader.BodyDecides` | crates/nq-app/src/api.rs:719 | a stream of valid text with a two-byte character behind the head is accepted in some cuttings and refused in others |
| `RequestReader.ChunkingsAgree` | crates/nq-app/src/api.rs:138-145 | all chunkings of one stream show the handler the same head and request line |
| `RequestReader.CompletesWhereCovered` | crates/nq-app/src/api.rs:706-719 | the completing read is the one that covers the end of the head |
| `RequestReader.MarkMeans` | crates/nq-app/src/api.rs:715-717 | the head ends at the four bytes of a blank line |
| `RequestReader.FirstLineMeans` | crates/nq-app/src/api.rs:138-145 | the request line is everything before the first line end |
| `HtmlEscape.EscapeIsSubstitution` | crates/nq-app/src/api.rs:789-796 | the five replacements equal one substitution per character |
| `HtmlEscape.NoMarkupSurvives` | crates/nq-app/src/api.rs:789-796 | no angle bracket or quote is left in the output |
| `HtmlEscape.EscapeRoundTrips` | crates/nq-app/src/api.rs:789-796 | reading the entities back recovers every input |
| `SocketFraming.Connection.ReadFrame` | helpers/python-conformance/nq_conformance_helper.py:459-476 | the verdict is the one the bursts decide: a line within the bound is a frame exactly when its newline ends a burst, fills whole receives of its burst, or reaches the bound, and otherwise has trailing bytes; every byte received is accounted for and at most one bound is buffered |
| `SocketFraming.Serve` | helpers/python-conformance/nq_conformance_helper.py:507-521 | the bytes consumed are the answered frames and then what was read of the one it stopped at; replies are in order and one per frame; each exit is characterised; without a shutdown request it serves to the end exactly when every request is answerable and its line ends a receive |
| `SocketFraming.AnsweredMeans` | helpers/python-conformance/nq_conformance_helper.py:346-361 | the answered frames are the bodies of 1 to 1048575 bytes without line ends that the service answers, with one newline behind |
| `SocketFraming.ReceiveStep` | helpers/python-conformance/nq_conformance_helper.py:463-475 | one receive either holds the end of the line, at its own end exactly when the line ends a receive, or leaves the question unchanged |
| `SocketFraming.LockstepIsOrderly` | helpers/python-conformance/nq_conformance_helper.py:507-521 | a peer that waits for each answer is served to the end, however each request is cut |
| `SocketFraming.TogetherIsRefused` | helpers/python-conformance/nq_conformance_helper.py:471-473 | two answerable requests in one burst are refused, and served when they arrive apart |
| `SocketFraming.OneFraming` | helpers/python-conformance/nq_conformance_helper.py:346-353 | a sequence of lines can be taken apart in one way only |
| `DigestFraming.DomainPreimageInjective` | qualification/operator-beta-m1b-v1/run_two_vm.py:330-338 | the framed preimage determines domain and value |
| `DigestFraming.DomainDigest` | qualification/operator-beta-m1b-v1/run_two_vm.py:330-338 | the digest of the framed domain and value |
| `DigestFraming.BigEndianAt` | qualification/operator-beta-m1b-v1/build_bookworm_package.py:94-98 | each byte of a length field is the quotient that belongs at its place, most significant first |
| `DigestFraming.LittleEndianAt` | crates/nq-profiles/build.rs:58-66 | the same, least significant first |
| `DigestFraming.AttemptPreimageInjective` | qualification/operator-beta-m1b-v1/run_two_vm.py:477-493 | the attempt preimage determines run id and work digest |
| `DigestFraming.AttemptNeverMarker` | qualification/operator-beta-m1b-v1/run_two_vm.py:477-493 | no attempt preimage equals a marker preimage, for any run ids |
| `DigestFraming.TreePreimageInjective` | qualification/operator-beta-m1b-v1/build_bookworm_package.py:81-102 | the tree preimage determines the list of paths, modes and contents |
| `DigestFraming.TreeDigest` | qualification/operator-beta-m1b-v1/build_bookworm_package.py:81-102 | refuses exactly when the walk holds a special file or no regular one; otherwise returns the digest and count of the regular records |
| `DigestFraming.FeedRecord` | qualification/operator-beta-m1b-v1/build_bookworm_package.py:94-98 | the five updates feed one record frame |
| `DigestFraming.TreeDigestBinds` | qualification/operator-beta-m1b-v1/build_bookworm_package.py:81-102 | equal digests mean the same regular files |
| `DigestFraming.ClosurePreimageInjective` | crates/nq-profiles/build.rs:47-69 | the closure preimage determines the list of paths and contents |
| `SourceClosure.ClosureDigest` | crates/nq-profiles/build.rs:47-69 | the loop computes the digest of the listing with names made text and slashes made forward |
| `SourceClosure.CollectedDigest` | crates/nq-profiles/build.rs:36-69 | the digest of a collection is the digest of its sorted, deduplicated listing |
| `SourceClosure.ClosureDigestBinds` | crates/nq-profiles/build.rs:36-69 | two collections have one digest exactly when their listings are rewritten alike and, when all names are UTF-8 without a backslash, exactly when they hold the same inputs, in any order and repetition |
| `SourceClosure.HashedAsIsIffPlain` | crates/nq-profiles/build.rs:52-56 | a name is hashed as it is exactly when it is valid UTF-8 without a backslash; rewriting twice is rewriting once |
| `SourceClosure.ClosureDigestBindsIffPlain` | crates/nq-profiles/build.rs:47-69 | over a class of inputs closed under the rewriting, equal digests mean equal listings exactly when all names are valid UTF-8 without a backslash |
| `SourceClosure.BackslashCollides` | crates/nq-profiles/build.rs:52-56 | the listings of `a\b` and of `a/b` differ and have one digest |
| `SourceClosure.InvalidNamesCollide` | crates/nq-profiles/build.rs:52-56 | two listings whose names differ in a byte that is not UTF-8 have one digest |
| `Utf8.KeptIffValid` | crates/nq-profiles/build.rs:55 | the lossy conversion changes nothing exactly when the bytes are valid UTF-8 |
| `Utf8.ValidIffEncoded` | crates/nq-profiles/build.rs:55 | the valid byte strings are the encodings of texts |
| `Utf8.ReplacedRun` | crates/nq-profiles/build.rs:55 | one replacement character stands for the longest run of bytes that begins a character, or for one byte |
| `Utf8.LossyIsValid` | crates/nq-profiles/build.rs:55 | its result is always valid UTF-8 |

## Left out

- EffectGuest.CallsCarryTheRetainedDispatch: the plan file that the owner also reads in the guest is not part of a logged call; that it is not compared is stated separately.
- EffectCustody.RunSafe: one reconcile step reads a file and uses it at once; a change between two reads inside a single step is not modelled.
- EffectProducer.Producer.Execute: the phases before and after the effect (guest preparation, observations, teardown, sealing) only succeed or raise, without their own RECOVERY.json writes, and the evidence files beside RECOVERY.json are not written.
- RunSeal.Run.Seal: deleting the guest key and writing the final RECOVERY.json happen before the modelled part; the two documents are replaced in one step each, and a link to a directory is not a covered file.
- RunSeal.Run.Check: the inspection of individual evidence documents (`verify_terminal_evidence`) is not modelled; of the result fields only the manifest digest is interpreted, the others are one admitted body.
- SealedArchive.VerifyArchive: reopening the database is one parameter; `ArchivedHistory` puts the history verifiers in its place.
- SealedArchive.SealBindsArchive: permission bits are not sealed and are not claimed equal; only the mode of bin/nq is checked.
- ArchivedHistory.ValidateHistoricalSemantics: admitted reports, status events, rejected custody, provider intake and diagnostic artifacts are not modelled; decoding a database file is a parameter, and the validation of islands is one predicate on the rows.
- EvaluationPaging.CompareEvaluations: an expiry that moves the floor between or during the two walks is not modelled.
- EvaluationPaging.CountTyped: the store's own invariants are part of the row predicate, and so is the finding replay, which `FindingReplay.Visit` shows to be a matter of each row given the rows before it.
- FindingReplay.Visit: the typed validation of a row and the store-wide invariants are left out; revisions are unbounded.
- FindingReplay.Engine.Advance: the refusal of a history that has become shorter than the cursor cannot occur in the model, where histories only grow; the watermark comparison of the full replay is not modelled.
- FindingReplay.Engine.Expire: which evaluations may expire, and when, is given.
- SourceClosure.CollectedDigest: walking the directories and reading the files is not modelled.
- SavedCheckHistory.ValidateHistory: typed decoding, digests and the retained-event validation are one rule per row; overflow of the `usize` totals is not modelled; a second terminal event for one claim is accepted, as in the code.
- NotificationHistory.ValidateHistory: the column comparison, digests and typed decoding of an intent are one rule per intent; overflow of the 32-bit event number is unreachable because a log of three events is already refused.
- EvaluationPaging.EvaluationStore.Page: reopening a row and replaying findings are one predicate per row, as `FindingReplay.ReplayPage` shows for the findings; conversions to 64-bit integers cannot fail below the latest sequence and are not written out.
- WriterPermit.EveryWaiterCanStart: says that a serving continuation exists, not that the scheduler takes it.
- Maintenance.Annotate: `char` is a Unicode scalar value; the RFC 3339 parser is a parameter.
- QueryParsing.Parse: the error texts are not distinguished, only refusal.
- RequestReader.ReadRequest: a transport error and the read timeout count as the end of the stream.
- SocketFraming.Serve: socket creation, signals inside a blocking call and operating-system errors are not modelled; decoding, validation and response building are one function.
- DigestFraming.TreeDigest: the sorted walk is given; reading directories is not modelled.
- The row scan of saved checks (`evaluate_read_only_at`) counts rows and bytes against limits; it would only add easy members.
- The daemon's stop path and `wait_with_binding_watch` do not take the writer permit.
- Route dispatch, response writing, console rendering, TLS, listeners and file permissions.
- The release, catalog and protocol asset verifiers, the acceptance runner and the command-line wrappers are fixed inventories and process plumbing.
