# Vinctor in Dafny: protocols and authority

This project models the parts of the Vinctor service whose correctness spans many calls, and proves what they
promise for every input, every run and every interleaving.

**Encrypted idempotency** (`Idempotency*.dfy`, with `Framing`, `Utf8`, `ResponseCodec` and `AssociatedData` for the
bytes). A request with an idempotency key is looked up, reserves a nonce, claims it and completes; the response is
stored encrypted and replayed to retries. `IdempotencyModel` holds the three tables, the keyring and an ideal AEAD,
`IdempotencyKeyring` its loader. `IdempotencyTransactions` says what each SQLite transaction does to the tables.
`IdempotencyAnswers` says in terms of the stored rows what every lookup, reservation, claim, completion and whole call
answers and leaves. `IdempotencyStore` is the store as a class: statements against mutable tables with rollback, each
method proved equal to its transaction.
`IdempotencyRuns` lets any number of callers, direct `complete` calls with arbitrary reservations, garbage
collection, write-disable, drain and retirement interleave one transaction at a time on a clock that never goes
back; a completing transaction may be rolled back, or reported ambiguously, after its mutation and its encryption
have happened, and a caller may stop anywhere. `IdempotencyTables` and `IdempotencyHistory` prove the invariant,
`IdempotencyTheorems` draws the consequences, and `IdempotencyCalls` shows that the steps of one caller, taken in a
row, are the store's own call. `IdempotencyDisableEpoch` and `IdempotencyLateDisable` say how far the epoch of a write
disable can be trusted.

**The bounded readiness probe** (`ReadinessProbe*.dfy`). Callers, a replaceable worker, abandoned workers, `close()`
and the reclaimer, with every lock section and every Event operation a step of its own. `ReadinessProbeSafety` proves
the invariant, `ReadinessProbeTheorems` what follows from it, and `ReadinessProbeProgress` that a probe being waited for
is checked within a bounded number of steps. `ReadinessProbeCalls` says what callers are answered, and what a whole
call, a check and `close()` do from every reachable state when nobody comes in between.

**Audit history** (`AuditLog`, `AuditReport`). The service pages out a log that grows between requests; the report
client rebuilds the history page by page, checking what it receives, and merges two histories.

**Scopes and authority** (`Segments`, `Scope`, `Authority*.dfy`). The string-level scope algebra, issuance under
bounds, grant requests, auto-approval and the policy decision; `AuthorityService` is the in-memory service as a
class, `AuthorityRuns` the concurrent deciders at the grain of single repository accesses. `AuthorityCalls` ties
the two together: the steps of one decider, taken in a row, are the service's own call. `AuthorityProvenance` traces
every issuance back to the steps that justify it.

**Smaller cores**: the OTLP batching worker (`AuditExport`), the auth-failure throttle (`AuthFailureThrottle`) and
scope inference (`ScopeInference`, `ScopeInferenceTheorems`).

Three expectations one may have of the source do not hold as they stand; each has its exact condition here.

- A wake-up of the readiness probe can be lost: when a check dies with a BaseException, its worker shows `idle`
  before its thread is gone (`src/vinctor_service/health_checks.py:499-513`), and a call in between hands its probe
  to it. `WakeUpCanBeLost` is such a run; a probe being waited for is served if and only if the worker it was handed
  to was not already dying (`ServedExactlyUnlessHandedToDying`), then within eight operations of that worker
  (`CheckedInTimeExactlyUnlessHandedToDying`), and never lost while no check dies (`NoLostWakeUp`).
- `scope_subsumes` is always sound, but it equals containment of requests only for clean scopes: in a scope with a
  wildcard the segment pattern is not applied to the other segments
  (`src/vinctor_core/scope.py:84-94`), so such a scope may match no valid request at all and is then contained in
  everything while almost nothing subsumes it (`ContainmentWithoutSubsumption`,
  `SubsumesIsContainmentExactlyForClean`).
- The write-disable epoch of a key version is no upper bound on the dates of its results: `reserve_nonce` disables with
  the epoch its request started with (`src/vinctor_service/idempotency_sqlite.py:168-177`), and others may have
  completed since. `DisableEpochCanPredateAResult` is such a run; the epoch bounds the results for good if and only if
  it bounds those stored when the disable happens (`DisableEpochBoundsResultsExactly`). The retirement window is sound
  all the same: it runs from the drain epoch, which the database reads afresh (`WindowOutlivesResults`).

## Model

| member | source | states |
|---|---|---|
| IdempotencyTheorems.AtMostOnce | src/vinctor_service/idempotency_sqlite_completion.py:178-237 | in every run, once a mutation commits with a stored result expiring at e, no other call with the same identity commits before e |
| IdempotencyTheorems.StoredUnlessAlreadyOver | src/vinctor_service/idempotency_storage.py:57-69 | an outcome goes unstored exactly when its own limit has passed; a stored one lives for the least of the terminal cap, the operation's limit and the outcome's limit |
| IdempotencyTheorems.LiveResultAnswersRetries | src/vinctor_service/idempotency_storage.py:72-87 | in every run, a live committed result answers its own fingerprint with exactly the first response, another fingerprint with a conflict, and a keyring without its key with an error; nobody proceeds |
| IdempotencyTheorems.LiveResultBlocksMutation | src/vinctor_service/idempotency_sqlite_completion.py:178-214 | under a live result a completing transaction commits nothing, encrypts nothing and leaves the tables alone, for any reservation |
| IdempotencyTheorems.ReplayedResponseIsFirstResponse | src/vinctor_service/idempotency_sqlite_executor.py:30-54 | whatever is handed out from the store was committed under the same identity and fingerprint and was live when judged |
| IdempotencyTheorems.NonceSingleUse | src/vinctor_service/idempotency_sqlite_completion.py:105-115 | no key is used twice with one nonce in any run, counting encryptions whose transaction rolled back and repeated calls with one reservation |
| IdempotencyTheorems.WindowOutlivesResults | src/vinctor_service/idempotency_lifecycle_sqlite_maintenance.py:87-108 | once drain + 86700 seconds have passed, every stored result of the version has expired |
| IdempotencyTheorems.RetirementOutcome | src/vinctor_service/idempotency_lifecycle_sqlite.py:150-173 | retire never reports unexpired results, and past its checks succeeds exactly when the keyring has the key or nothing is left to delete |
| IdempotencyTheorems.AuthenticIffKeyHeld | src/vinctor_service/idempotency_storage.py:90-129 | in every run a stored row authenticates exactly for the keyrings that hold its version |
| IdempotencyTheorems.CollectionSucceeds | src/vinctor_service/idempotency_sqlite_completion.py:139-175 | garbage collection with all keys never fails, keeps live rows, and stops short of its budget only when nothing expired is left |
| IdempotencyTheorems.OldestAreCollectedFirst | src/vinctor_service/idempotency_sqlite_completion.py:139-157 | under the limit the oldest expired rows are collected first |
| IdempotencyTheorems.LifecycleInOrder | src/vinctor_service/idempotency_lifecycle_sqlite.py:101-173 | disable <= drain, drain + 86700 <= retire, and no stored result names a retired version, in every run |
| IdempotencyTheorems.LifecycleOnlyAdvances | src/vinctor_service/idempotency_lifecycle_sqlite.py:101-173 | over any continuation, epochs once written stay, and a disabled version gets no new slot and no new result |
| IdempotencyTheorems.LedgerMatchesCounter | src/vinctor_service/idempotency_sqlite.py:108-177 | the counter equals the ledger rows, whose slots are 1..k once each; k <= 2^24; the soft-limit epoch is set exactly from 2^23 on |
| IdempotencyTheorems.ExhaustionDisablesTheVersion | src/vinctor_service/idempotency_sqlite.py:108-177 | in every run a reservation goes on to disable its version if and only if the version is writable and its counter is at the hard limit or the ledger refuses the nonce; all tables stay as they were, and the disable closes this version with the epoch and reason of the refusal and changes nothing else |
| IdempotencyTheorems.RefusalDisablesTheVersion | src/vinctor_service/idempotency_sqlite.py:168-177 | however much later the disable follows the refusal, it leaves the version closed to writes, with counter, ledger and results untouched |
| IdempotencyDisableEpoch.DisableEpochBoundsResultsExactly | src/vinctor_service/idempotency_sqlite.py:244-252 | in every run and every continuation, the epoch a disable records bounds all results the version ever has from then on if and only if it bounds those stored when the disable happens; the clock of that moment always does |
| IdempotencyLateDisable.DisableEpochCanPredateAResult | src/vinctor_service/idempotency_sqlite.py:108-177 | a run in which the recorded epoch is older than a stored result, by any delay of the refused request |
| IdempotencyDisableEpoch.ClosingStep | src/vinctor_service/idempotency_sqlite.py:244-252 | nothing but a write disable closes a version; its epoch is not ahead of the clock and it leaves the results alone |
| IdempotencyTheorems.ReadyExactlyWhenWritable | src/vinctor_service/idempotency_keyring.py:86-117 | in every run the exact-count clause holds, and a registered process is ready exactly when it can read all results and its active version accepts writes |
| IdempotencyTheorems.ReadinessExactly | src/vinctor_service/idempotency_readiness.py:54-80 | in every run and for any loaded keyring, registered or not: readiness raises exactly on a result without a key or a keyring that clashes with the registry, and is given exactly without a keyring, over an empty registry or when the active version accepts writes |
| IdempotencyTheorems.RegisteredIsCompatible | src/vinctor_service/idempotency_keyring.py:158-178 | a registered keyring never conflicts with the registry, and its active version is registered |
| IdempotencyTheorems.CountsAgree | src/vinctor_service/idempotency_readiness.py:54-80 | the exact nonce count of every version equals its counter and is within the hard limit |
| IdempotencyHistory.Reachable | src/vinctor_service/idempotency_sqlite_completion.py:86-237 | the invariant on tables, callers, encryptions, commits and replays holds after every run |
| IdempotencyHistory.RunEvolves | src/vinctor_service/idempotency_sqlite_result_storage.py:54-80 | over any run the ledger and registry only gain: rows stay, claims and epochs are written once |
| IdempotencyHistory.UnclaimedIsUnused | src/vinctor_service/idempotency_sqlite_result_storage.py:54-80 | a nonce whose claim is free has never reached the cipher and is held by nobody |
| IdempotencyHistory.ReplayIsSealedResponse | src/vinctor_service/idempotency_storage.py:72-129 | a lookup that replays returns exactly what was sealed, to its own fingerprint, unexpired |
| IdempotencyTransactions.CompletionIsFaithful | src/vinctor_service/idempotency_sqlite_completion.py:178-237 | a completion commits only the mutation's own outcome, only with no live result there, stores it under the caller's identity, and seals only under the reservation's version and nonce |
| IdempotencyTransactions.ExecutionIsFaithful | src/vinctor_service/idempotency_sqlite_executor.py:30-54 | a whole call answers a live result without touching anything, commits only the mutation's outcome, and seals only under the fresh nonce it reserved |
| IdempotencyCalls.UndisturbedCall | src/vinctor_service/idempotency_sqlite_executor.py:30-54 | the steps of one caller taken in a row leave exactly the tables, commit and encryption of the executor's call |
| IdempotencyCalls.UndisturbedCompletion | src/vinctor_service/idempotency_sqlite_completion.py:86-115 | the same for complete() with any reservation |
| IdempotencyTransactions.MutationIsFaithful | src/vinctor_service/idempotency_sqlite_completion.py:202-237 | from the mutation's return on: the commit, the stored row and the sealing agree, and other identities are untouched |
| IdempotencyTransactions.ExpiredRowsProceed | src/vinctor_service/idempotency_sqlite_completion.py:158-172 | an expired row is deletable exactly when it authenticates |
| IdempotencyTables.SlotAdded | src/vinctor_service/idempotency_sqlite.py:118-166 | the next slot keeps the slots of a version exactly 1..n+1 |
| IdempotencyTables.ReserveKeeps | src/vinctor_service/idempotency_sqlite.py:108-177 | reserving keeps the slot ledger, the lifecycle order and the life times of results |
| IdempotencyTables.RegisterKeeps | src/vinctor_service/idempotency_sqlite.py:207-230 | registering a keyring keeps all tables right and leaves every key under its own label and commitment |
| IdempotencyTables.CompleteKeeps | src/vinctor_service/idempotency_sqlite_completion.py:178-237 | completing keeps all tables right, deletes nothing live, and adds nothing but the committed row |
| IdempotencyTables.RetireKeeps | src/vinctor_service/idempotency_lifecycle_sqlite_maintenance.py:80-146 | retiring keeps all tables right and deletes nothing live |
| IdempotencyTables.DrainKeeps | src/vinctor_service/idempotency_lifecycle_sqlite.py:123-148 | draining dates every result of the version before its drain epoch |
| IdempotencyModel.OpenSealed | src/vinctor_service/idempotency_storage.py:90-129 | an unaltered row opens exactly with the key it was sealed under |
| IdempotencyModel.LiveRowAnswers | src/vinctor_service/idempotency_storage.py:72-87 | a live unaltered row answers its fingerprint with the stored response and any other with a conflict |
| IdempotencyModel.SealFacts | src/vinctor_service/idempotency_sqlite_completion.py:240-274 | what is encrypted carries the reservation's version and nonce and the row's own associated data |
| IdempotencyKeyring.LoadKeyring | src/vinctor_service/idempotency_keyring.py:120-151 | no keyring exactly without both variables; one loads exactly when labels have the required syntax, labels and materials are distinct, materials have 32 bytes and the active version is a member; its keys are the configured ones, sorted by label |
| IdempotencyKeyring.LabelsSpelled | src/vinctor_service/idempotency_keyring.py:231-234 | a label is a letter or digit and up to 63 letters, digits, dots, underscores and dashes, and nothing else |
| IdempotencyKeyring.LessIsLexicographic | src/vinctor_service/idempotency_keyring.py:120-151 | the order of labels: a prefix first, otherwise by the first different code point |
| IdempotencyStore.SqliteIdempotencyStore.RegisterKeyring | src/vinctor_service/idempotency_sqlite.py:207-230 | a valid keyring registers exactly when every key finds its label with its own material, or neither label nor material taken; then the missing ones are added, unused and open, and nothing else changes; otherwise nothing is left behind |
| IdempotencyStore.SqliteIdempotencyStore.Lookup | src/vinctor_service/idempotency_sqlite.py:74-106 | proceeds exactly when nothing live is stored and what is stored authenticates, conflicts exactly on a live row of another fingerprint, replays exactly what a live row of this fingerprint decodes to; what was sealed for the identity comes back unchanged |
| IdempotencyStore.SqliteIdempotencyStore.ReserveNonce | src/vinctor_service/idempotency_sqlite.py:108-177 | reserves exactly when the version is writable, below the limit and the nonce is free: counter, soft-limit report and ledger row change together; otherwise a write error, with nothing changed or, at the limit or on a collision, the version closed |
| IdempotencyStore.SqliteIdempotencyStore.ClaimReservation | src/vinctor_service/idempotency_sqlite_result_storage.py:54-80 | claims exactly this unclaimed, unused reservation of this owner, not before its epoch, and changes nothing but that claim |
| IdempotencyStore.SqliteIdempotencyStore.CompleteTransaction | src/vinctor_service/idempotency_sqlite_completion.py:178-237 | the completing transaction with its rollbacks: what a live, contradicting or unreadable row, a missing claim or a raising mutation is answered, each without a trace, and on a commit the reply and the rows before and after |
| IdempotencyStore.SqliteIdempotencyStore.ClaimAndComplete | src/vinctor_service/idempotency_sqlite_completion.py:86-115 | looks again, claims in a transaction of its own, then completes; a known request is answered with its response, a contradicting one with a conflict, an unreadable result with a write error |
| IdempotencyStore.SqliteIdempotencyStore.Execute | src/vinctor_service/idempotency_sqlite_executor.py:30-54 | a live row of this request gives exactly its stored response, one of another fingerprint a conflict, an unreadable one an error, all with the tables untouched; without a reservation the answer is a write error; a commit answers with the mutation's own response |
| IdempotencyStore.SqliteIdempotencyStore.GcExpiredResults | src/vinctor_service/idempotency_sqlite_completion.py:139-175 | deletes expired authenticated rows only, at most the limit and 100, all of them if fewer, and reports how many; or fails and leaves every row |
| IdempotencyStore.SqliteIdempotencyStore.WriteDisableVersion | src/vinctor_service/idempotency_sqlite.py:244-252 | closes a writable version with this epoch and reason, once: an earlier closing, a retired version and all other rows stay, and the active version then serves no reservation |
| IdempotencyStore.SqliteIdempotencyStore.DisableVersion | src/vinctor_service/idempotency_lifecycle_sqlite.py:101-121 | each refusal exactly when its cause is there; otherwise closed under this reason from the first closing on, the store's own disable and the operator's agreeing; repeating it changes nothing, and the active version then serves no reservation |
| IdempotencyStore.SqliteIdempotencyStore.Drain | src/vinctor_service/idempotency_lifecycle_sqlite.py:123-148 | each refusal exactly when its cause is there; otherwise one drain epoch on record, not before the disable, everything else unchanged; repeating it changes nothing, and retirement is refused until the window from it has passed |
| IdempotencyStore.SqliteIdempotencyStore.RetireVersion | src/vinctor_service/idempotency_lifecycle_sqlite_maintenance.py:80-146 | succeeds exactly for a closed version drained a full window ago whose results have all expired and authenticate, under another writable one; then it is marked, with its earlier epoch or this one, none of its results is left and everything else stays, and retiring again is Ok and changes nothing; a refusal changes nothing |
| IdempotencyStore.SqliteIdempotencyStore.Retire | src/vinctor_service/idempotency_lifecycle_sqlite.py:150-173 | each refusal exactly when its cause is there and without a trace; success marks the version, deletes its results and nothing else, and repeating the call is Ok and changes nothing |
| IdempotencyAnswers.LookupMeans | src/vinctor_service/idempotency_storage.py:72-87 | a lookup replays exactly a live, authentic, decodable row of this identity and fingerprint, conflicts exactly on one of another fingerprint, fails exactly on an unreadable one, and proceeds exactly otherwise |
| IdempotencyAnswers.ExecutionAnswers | src/vinctor_service/idempotency_sqlite_executor.py:30-54 | what execute() answers in each of these cases, with the tables untouched, and with what reservation it otherwise goes on |
| IdempotencyAnswers.CompleteCallAnswers | src/vinctor_service/idempotency_sqlite_completion.py:86-115 | the same for complete(), whose own lookup turns an unreadable row into a write error, up to its claim |
| IdempotencyAnswers.CompletionAnswers | src/vinctor_service/idempotency_sqlite_completion.py:178-214 | the same for the completing transaction, up to the mutation's return |
| IdempotencyAnswers.MutationAnswers | src/vinctor_service/idempotency_sqlite_completion.py:202-237 | a returned outcome commits exactly when it is already over, unstored, or can be sealed and has a storable status, stored; what is replied and which rows are there afterwards |
| IdempotencyAnswers.FreshCallCommits | src/vinctor_service/idempotency_sqlite_executor.py:30-54 | with nothing live in its way, a fresh nonce and an outcome that can be kept, a call commits that outcome and answers with it, however much later its lookup, claim and completion fall |
| IdempotencyAnswers.ReservesExactly | src/vinctor_service/idempotency_sqlite.py:108-177 | when a nonce is reserved, when the version has to be closed instead, and what the tables are afterwards |
| IdempotencyAnswers.ClaimsExactly | src/vinctor_service/idempotency_sqlite_result_storage.py:54-80 | a claim succeeds exactly on the ledger row of this very reservation and owner, unclaimed, not in the future and unused |
| IdempotencyAnswers.CollectsExactly | src/vinctor_service/idempotency_sqlite_completion.py:139-175 | what one garbage collection deletes, reports and leaves |
| IdempotencyAnswers.RegistersExactly | src/vinctor_service/idempotency_sqlite.py:207-230 | when a keyring can be registered and what the registry is afterwards |
| ResponseCodec.PlaintextRoundTrip | src/vinctor_service/idempotency_storage.py:46-54 | decoding an encoded response gives it back, for every encodable response |
| ResponseCodec.PlaintextCanonical | src/vinctor_service/idempotency_storage.py:172-225 | whatever decodes re-encodes to the same bytes |
| ResponseCodec.PlaintextEncodable | src/vinctor_service/idempotency_storage.py:46-54 | a response encodes exactly when its parts fit four-byte lengths and its texts hold no surrogate |
| ResponseCodec.KnownPlaintext | src/vinctor_service/idempotency_storage.py:46-54 | the stored bytes of one response, spelled out |
| AssociatedData.ResponseAadInjective | src/vinctor_service/idempotency_crypto.py:77-98 | different records never share response associated data |
| AssociatedData.ResponseAadExists | src/vinctor_service/idempotency_crypto.py:77-98 | a record has associated data exactly when both digests have 32 bytes, the numbers fit in 64 bits and the texts can be encoded |
| AssociatedData.ResponseAadLayout | src/vinctor_service/idempotency_crypto.py:77-98 | the domain and behind it each field in the one order |
| AssociatedData.EnvelopeAadInjective | src/vinctor_service/idempotency_crypto.py:190-203 | the envelope determines format, key version and inner associated data |
| AssociatedData.FingerprintInjective | src/vinctor_service/idempotency_crypto.py:52-53 | the fingerprint encoding is injective on tuples of any length |
| Framing.LengthPrefixPeel | src/vinctor_service/idempotency_crypto.py:182-183 | length-prefixed fields come apart again in only one way |
| Framing.ReadIsCanonical | src/vinctor_service/idempotency_storage.py:192-199 | what the reader accepts is what the writer writes |
| Framing.KnownFrames | src/vinctor_service/idempotency_crypto.py:182-187 | lengths and numbers are big-endian, negative ones in two's complement, on examples |
| Utf8.RoundTrip | src/vinctor_service/idempotency_storage.py:202-221 | text survives UTF-8 encoding and decoding |
| Utf8.Canonical | src/vinctor_service/idempotency_storage.py:202-215 | the decoder accepts only shortest forms |
| Utf8.KnownTexts | src/vinctor_service/idempotency_storage.py:202-215 | the encoding is that of RFC 3629, section 7, on its examples, and overlong forms and surrogates are refused |
| ReadinessProbeTheorems.ServedExactlyUnlessHandedToDying | src/vinctor_service/health_checks.py:250-280 | a probe being waited for will be picked up if and only if the worker it was handed to was not already dying |
| ReadinessProbeProgress.CheckedInTimeExactlyUnlessHandedToDying | src/vinctor_service/health_checks.py:476-513 | in every interleaving, the check of a probe being waited for is within eight operations of the worker it was handed to if that worker was not dying; otherwise no continuation ever begins it |
| ReadinessProbeTheorems.NoLostWakeUp | src/vinctor_service/health_checks.py:476-513 | while no BaseException escapes a check, every awaited probe is served, in every interleaving |
| ReadinessProbeTheorems.WakeUpCanBeLost | src/vinctor_service/health_checks.py:497-513 | a run in which an awaited probe has nobody to serve it and later calls only join it |
| ReadinessProbeTheorems.SlotsAccounted | src/vinctor_service/health_checks.py:314-377 | the count equals the counted unreleased workers, stays within the cap, and live threads are at most one more |
| ReadinessProbeTheorems.RecordedWorkerIsAlive | src/vinctor_service/health_checks.py:321-346 | the recorded worker is alive, so the branch for one already gone is never taken |
| ReadinessProbeTheorems.ReclaimerStaysAwake | src/vinctor_service/health_checks.py:379-430 | while a call is abandoned in an open probe the reclaimer's event is set; the reclaimer clears it exactly under a free lock with no call abandoned |
| ReadinessProbeTheorems.CheckedAtMostOnce | src/vinctor_service/health_checks.py:476-513 | each probe is checked at most once, by its own worker, after its creation, and its deadline is within the timeout |
| ReadinessProbeTheorems.TrueComesFromAFreshCheck | src/vinctor_service/health_checks.py:250-280 | True is answered only for a finished probe whose own later check passed |
| ReadinessProbeCalls.FinishedIsReadyExactlyIfItsCheckPassed | src/vinctor_service/health_checks.py:494-513 | in every run a finished probe was checked once and is ready exactly if that check passed |
| ReadinessProbeCalls.CallersAreAnsweredExactly | src/vinctor_service/health_checks.py:250-280 | in every run a waiting caller is answered exactly from the end of the check or the deadline on: True if and only if the check is finished and passed |
| ReadinessProbeCalls.ChecksAreAnswered | src/vinctor_service/health_checks.py:476-513 | from every reachable state a check that returns is answered with what it returned, after three operations of its worker, and one that dies with False |
| ReadinessProbeCalls.SlotsComeBack | src/vinctor_service/health_checks.py:348-377 | from every reachable state the slot of an abandoned worker is free again nine operations after its check comes back |
| ReadinessProbeCalls.WholeCall | src/vinctor_service/health_checks.py:250-346 | what a call with nobody in between does from every reachable state: refuse, join, hand to the idle worker, start a worker, give the blocked one up, or fail closed at the cap |
| ReadinessProbeCalls.WholeClose | src/vinctor_service/health_checks.py:282-312 | what close() with nobody in between does, and that closing again changes nothing |
| ReadinessProbeSafety.RunKeeps | src/vinctor_service/health_checks.py:250-513 | the invariant of workers, probes, lock section and counts holds after every interleaving |
| ReadinessProbeSafety.ReadFacts | src/vinctor_service/health_checks.py:486-492 | a worker that takes a probe takes the one it was chosen for or a finished one |
| ReadinessProbeSafety.ReplaceStep | src/vinctor_service/health_checks.py:321-346 | replacing a blocked worker keeps the accounting, at the cap and below it |
| AuditReport.CompleteAuditEvents | src/vinctor_mcp_server/tools.py:370-443 | the loop terminates and returns exactly the parsed history as the log stood at the first page, whatever is appended meanwhile; no consistency check ever fires |
| AuditReport.ReportIsTheSelection | src/vinctor_mcp_server/tools.py:955-1001 | a report is refused exactly for a malformed filter, cannot be read exactly when a selected event is unreadable, and else has each selected event under its own id, time and position |
| AuditReport.NextPage | src/vinctor_service/audit_http.py:98-155 | at any later time the service answers a cursor with the next page of the first history, though rows and sequences are read from different states of the growing log |
| AuditReport.NoProblem | src/vinctor_mcp_server/tools.py:391-427 | every page of this service passes the client's checks |
| AuditReport.PageProblem | src/vinctor_mcp_server/tools.py:391-427 | a page is accepted exactly when it continues the snapshot, is new, nonempty after the first, and its next cursor is its own first event and unused; each error has its cause |
| AuditReport.MergeAuditEventStreams | src/vinctor_mcp_server/tools.py:1024-1048 | merges exactly when no two events contradict each other, into every event once in sequence order; an overlap error means one id for two events, a chronology error one sequence for two ids |
| AuditReport.ReportsAgree | src/vinctor_mcp_server/tools.py:1024-1048 | reports of one growing log never contradict each other, under any filters and at any times |
| AuditReport.GrantRequestReport | src/vinctor_mcp_server/tools.py:353-368 | without a grant reference the request's own history; with one, the union of both histories in log order, whose merge never fails; a record that cannot be fetched or a history that cannot be read ends it |
| AuditReport.SeeAll | src/vinctor_mcp_server/tools.py:396-401 | finds a duplicate exactly when there is one |
| AuditLog.RowsAreTheSelectedEvents | src/vinctor_service/in_memory.py:184-208 | the rows are exactly the matching workspace events with their own positions, in order |
| AuditLog.EachFilterNarrows | src/vinctor_service/in_memory.py:539-575 | without a filter the whole workspace is listed, and each of the nine filters narrows the listing by its own field alone |
| AuditLog.ContinuationPage | src/vinctor_service/in_memory.py:143-208 | cursors of an earlier log mean the same in any longer log, with the sequences read later still |
| AuditLog.SequencesAreStable | src/vinctor_service/in_memory.py:106-116 | the sequences of a page, read later and perhaps from a longer log, are its rows' positions |
| AuditLog.FirstPage | src/vinctor_service/audit_http.py:122-154 | the first page ends the log as it stands and names its snapshot, whenever the sequences are read |
| AuditLog.RefusedExactly | src/vinctor_service/in_memory.py:143-176 | a request is refused exactly for a malformed filter, a cursor without its snapshot, an empty or unknown id, or a cursor after its snapshot |
| AuditLog.ServedExactly | src/vinctor_service/audit_http.py:122-154 | any other request, whatever its cursors, gets the last events of its listing up to the limit, with a next cursor exactly when more are left |
| Scope.SubsumesIsContainmentExactlyForClean | src/vinctor_core/scope.py:43-55 | subsumption equals containment of requests for every broad scope if and only if the narrow scope is clean |
| Scope.ContainmentWithoutSubsumption | src/vinctor_core/scope.py:84-94 | a concrete valid scope that is contained in another without being subsumed by it |
| Scope.SubsumptionIsSound | src/vinctor_core/scope.py:43-55 | whatever is subsumed is contained, with no condition |
| Scope.CleanContainmentSubsumes | src/vinctor_core/scope.py:43-55 | what contains a clean scope subsumes it |
| Scope.UncleanMatchesNothing | src/vinctor_core/scope.py:84-94 | a wildcard over a segment outside the pattern matches no valid request |
| Scope.SubsumesTransitive | src/vinctor_core/scope.py:43-55 | subsumption is transitive |
| Scope.SubsumesAntisymmetric | src/vinctor_core/scope.py:43-55 | scopes that subsume each other are equal |
| Scope.SubsumesBySegments | src/vinctor_core/scope.py:43-55 | on all strings: a scope subsumes itself, and between valid scopes a wildcard what continues its segments, for the same action |
| Scope.WildcardMatchesBySegments | src/vinctor_core/scope.py:58-65 | the string-prefix test of a wildcard is the segment-prefix test |
| Scope.ConcreteMatchesItself | src/vinctor_core/scope.py:33-40 | a scope without a wildcard matches its own request only |
| Scope.ConcreteResources | src/vinctor_core/scope.py:68-94 | a requestable resource is two or more plain segments and nothing else |
| Scope.Vocabulary | src/vinctor_core/scope.py:5-6 | the six actions, and the characters of a segment by their codes |
| Scope.GrantableResources | src/vinctor_core/scope.py:68-94 | a grantable resource is a concrete one, or a star below two or more segments without empty, relative, starred or forbidden ones |
| Scope.GrantableScopes | src/vinctor_core/scope.py:21-30 | a grantable scope is an allowed action, a colon and a grantable resource |
| Scope.MatchScope | src/vinctor_core/scope.py:33-40 | a scope is found exactly when one matches, and it is the first that does |
| Segments.PrefixIsSegmentwise | src/vinctor_core/scope.py:58-65 | a string prefix ending at a separator is a proper prefix of the segments, and conversely |
| AuthorityTheorems.NoEscalation | src/vinctor_service/grants.py:113-198 | a permit names no boundary but an active one of the workspace and lies inside the bound stored for the agent at the very step that checked the grant, before issue time plus a TTL within that bound's cap and the ceiling; if auto-approved, also inside the scopes and TTL of one active rule stored when the same decider evaluated the request, before it claimed it |
| AuthorityProvenance.EveryIssuanceIsJustified | src/vinctor_service/auto_approval.py:186-238 | in every run each issuance has one step at which its own caller checked it against the bounds stored just then, and each automatic one an earlier evaluation of the stored rules by that caller, with a won claim in between and nothing else decided meanwhile |
| AuthorityTheorems.AtMostOneGrantPerRequest | src/vinctor_service/grant_requests.py:87-149 | however many deciders race, a request yields at most one grant |
| AuthorityTheorems.SettledRequest | src/vinctor_service/grant_requests.py:87-198 | with no decider in between, a request is pending exactly as created, rejected without a grant, or approved with the one grant matching its reference, scopes and TTL |
| AuthorityTheorems.RestoreGivesBackTheRequest | src/vinctor_service/grant_requests.py:126-130 | a failed issuance restores the exact pending record, whatever others did |
| AuthorityTheorems.StoredGrantsDecide | src/vinctor_core/policy.py:14-44 | over stored grants the policy permits exactly a well-formed attempt inside its boundary that one of the agent's active, unexpired grants matches |
| AuthorityTheorems.RevocationIsFinal | src/vinctor_service/grants.py:254-277 | a revoked grant stays revoked in every continuation |
| AuthoritySafety.Reachable | src/vinctor_service/grant_requests.py:72-198 | the invariant on requests, claims, issuances and grants holds after every interleaving |
| AuthoritySafety.CheckedIsOk | src/vinctor_service/grants.py:113-183 | what passes the checks is within one reading of the bounds, the cap and the ceiling |
| Authority.ApprovalIsAllOrNothing | src/vinctor_service/grant_requests.py:72-149 | an undisturbed approval issues the matching grant and records it, or changes nothing but the reference counter |
| Authority.ApprovalExactly | src/vinctor_service/grant_requests.py:72-149 | an approval succeeds exactly on a pending request of the workspace that nothing stands against issuing, and otherwise names the first thing that does |
| Authority.IssueExactly | src/vinctor_service/grants.py:113-198 | an issuance succeeds exactly when none of eleven reasons applies, adds exactly the requested grant, and otherwise changes no grant and names the first reason that applies |
| Authority.RequestFailsExactly | src/vinctor_service/grant_requests.py:21-69 | a refused request is told the first reason that applies |
| Authority.EnforcePermitsExactly | src/vinctor_core/enforce.py:13-93 | a grant permits exactly when the boundary named is registered, of its workspace and active, or none is named and none required, the request is well-formed, its scopes are valid, it is active and unexpired, and a scope matches; the permit names the first that does |
| Authority.EnforceDeniesExactly | src/vinctor_core/enforce.py:13-93 | each denial exactly when its cause is there and no earlier one: the boundary, the request, the grant's state, its scopes |
| Authority.PolicyPermitsExactly | src/vinctor_core/policy.py:14-53 | over valid grants the order of the grants does not matter: a permit exactly for a well-formed attempt inside its boundary that some grant of the agent allows |
| Authority.PolicyDecidesExactly | src/vinctor_core/policy.py:14-53 | over any grants: a malformed request, then the boundary once there is an own grant, then the first own grant that is live and either has an invalid scope or allows the attempt |
| Authority.PermitNamesAGrant | src/vinctor_core/policy.py:25-53 | a permit names one of the agent's own grants that allows the attempt inside its boundary, and the first of its scopes that matches |
| Authority.EvaluateAutoApproval | src/vinctor_service/auto_approval.py:142-183 | approves a pending request exactly when a rule covers it; otherwise the reason names the nearest miss |
| Authority.EvaluatesExactly | src/vinctor_service/auto_approval.py:142-183 | the verdict in terms of the rules' own fields, with the exact cause of each miss |
| Authority.ApprovalIsByTheFirstRule | src/vinctor_service/auto_approval.py:154-174 | the rule an approval rests on is the first that covers the request |
| Authority.Judge | src/vinctor_service/auto_approval.py:154-174 | finds a covering rule exactly when there is one, and otherwise tells scope from TTL misses |
| AuthorityService.InMemoryService.SetBounds | src/vinctor_service/grants.py:86-110 | valid bounds replace this agent's only; a declared cap is stored, an undeclared one kept, a cleared one removed; afterwards these scopes and this cap decide exactly what may be issued |
| AuthorityService.InMemoryService.ScopesOutside | src/vinctor_service/grants.py:328-336 | returns exactly the requested scopes no bound subsumes |
| AuthorityService.InMemoryService.IssueGrant | src/vinctor_service/grants.py:113-198 | issues exactly when no reason stands against it, and then inserts exactly the requested grant, with its TTL or half an hour; otherwise changes no grant and names the first reason |
| AuthorityService.InMemoryService.RevokeGrant | src/vinctor_service/repositories.py:141-146 | revokes only in the grant's own workspace and changes only the status; the grant then permits nothing, and revoking again changes nothing |
| AuthorityService.InMemoryService.CreateRequest | src/vinctor_service/grant_requests.py:21-69 | exactly a valid request under a new id is filed, pending, undecided and ready to be decided, for the named target or the requester; every other request stays |
| AuthorityService.InMemoryService.DecideRequest | src/vinctor_service/repositories.py:179-186 | wins exactly on a pending request, changes only that record, and once it is decided nobody else can win it |
| AuthorityService.InMemoryService.ApproveRequest | src/vinctor_service/grant_requests.py:72-149 | each refusal exactly when its cause is there, leaving requests and grants as they were; success records the decision and inserts the grant under the next minted reference |
| AuthorityService.InMemoryService.RejectRequest | src/vinctor_service/grant_requests.py:152-198 | rejects exactly a pending request of the workspace, changes only its decision fields, and no later approval or rejection of it succeeds |
| AuthorityService.InMemoryService.EvaluateAutoApproval | src/vinctor_service/auto_approval.py:142-183 | the loop with two flags computes the verdict |
| AuthorityService.InMemoryService.AutoApproveRequest | src/vinctor_service/auto_approval.py:186-238 | approves exactly a pending request that some rule covers and nothing stands against, on the first such rule, which the decision names; otherwise says what stood in the way and leaves requests and grants as they were |
| AuthorityCalls.UndisturbedApproval | src/vinctor_service/grant_requests.py:72-149 | read, claim, check, insert, restore, taken in a row by one caller, leave exactly the store and the grant of the whole call |
| AuthorityCalls.UndisturbedAutoApproval | src/vinctor_service/auto_approval.py:186-238 | the same for evaluating the rules and then deciding, with the rule on record as the origin of the grant |
| AuthorityCalls.UndisturbedRejection | src/vinctor_service/grant_requests.py:152-198 | the same for reading and rejecting |
| AuthorityCalls.UndisturbedIssuance | src/vinctor_service/grants.py:113-198 | the same for a direct issuance: one check against the bounds, one insert |
| AuthorityCalls.FirstClaimDecides | src/vinctor_service/grant_requests.py:97-124 | in every run, of several deciders that have read a request as pending the first to claim it decides it as it says, and each of the others changes nothing and goes away |
| AuthorityCalls.SecondReadingDecides | src/vinctor_service/auto_approval.py:213-238 | after its evaluation an automatic approval goes on exactly if the request is still pending there, with the record it then reads |
| AuthorityCalls.RequestsAreFiled | src/vinctor_service/grant_requests.py:21-69 | in every run requests are filed under their own id, which is all the four above ask of the store |
| AuthorityService.InMemoryService.UpsertRule | src/vinctor_service/auto_approval.py:97-110 | exactly a valid rule whose id no other workspace uses is stored, as the only one with its id, in place or at the end; the others stay, and a disabled rule approves nothing |
| AuditExport.NothingLostOrReordered | src/vinctor_service/audit_export.py:195-249 | at every step the accepted events are, in order, the batches handed over, the batch in hand and the queue; batches have 1 to batch_size events; nothing follows STOP |
| AuditExport.EverythingHandedOnExit | src/vinctor_service/audit_export.py:219-249 | when the worker has left, every accepted event was handed over exactly once |
| AuditExport.OtlpHttpExport.EmitEvent | src/vinctor_service/audit_export.py:195-203 | an event is accepted at the end of the queue exactly when the export is open and the queue has room, and dropped without a trace otherwise |
| AuditExport.OtlpHttpExport.MarkClosed | src/vinctor_service/audit_export.py:205-210 | the first close starts the wait for room, a later one changes nothing; no event is accepted afterwards |
| AuditExport.OtlpHttpExport.EnqueueStop | src/vinctor_service/audit_export.py:210-214 | when the wait for room ends: the stop marker put last if and only if there is room |
| AuditExport.WaitEndsWithTheMarkerIffRoom | src/vinctor_service/audit_export.py:205-214 | whatever the others do during the wait, the queue only shrinks at the front; close() can give up exactly if the queue was full at the start and nothing was taken since |
| AuditExport.OtlpHttpExport.RunOnce | src/vinctor_service/audit_export.py:219-249 | one round of the worker hands over one batch from the front of the queue, as full as the queue allows, or leaves at the stop marker |
| AuditExport.WorkerHandsOver | src/vinctor_service/audit_export.py:219-249 | a waiting worker can take any number of events up to the batch size and hands over exactly those, in order |
| AuditExport.WorkerStops | src/vinctor_service/audit_export.py:219-249 | at the stop marker the worker leaves, after handing over the batch it has begun |
| AuditExport.SendBatch | src/vinctor_service/audit_export.py:251-267 | goes on only after transient failures, up to the maximum, waiting twice as long each time |
| AuthFailureThrottle.FailuresConserved | src/vinctor_service/audit.py:105-160 | the windows' counts add up to the calls made, in every run; window starts are at least the window length apart |
| AuthFailureThrottle.EmittedExactlyOnce | src/vinctor_service/audit.py:139-160 | once all callers are done each window has one timely event and each closed window with repeats one summary with its exact count and span |
| AuthFailureThrottle.WindowsCutTheCalls | src/vinctor_service/audit.py:105-160 | in every run the windows cut the calls, in their order, into stretches that begin with their first call, hold exactly those before its time plus the length, and end with the first that is not |
| AuthFailureThrottle.AuthFailureAuditThrottle.Record | src/vinctor_service/audit.py:105-160 | within the length of the open window a failure is counted there and nothing emitted; from its end on a new window opens with its timely event, after the summary of the old one if that had repeats; other surfaces stay |
| ScopeInference.ProposeScopes | src/vinctor_core/infer.py:52-129 | returns exactly the proposals for the kept pairs in scope order |
| ScopeInference.Aggregate | src/vinctor_core/infer.py:72-80 | sums counts and keeps the latest sighting per valid pair |
| ScopeInferenceTheorems.KeptExactly | src/vinctor_core/infer.py:72-80 | what is kept: the valid observed pairs counted often enough, with their count, which is a sum, and their latest sighting |
| ScopeInferenceTheorems.LatestIsGreatest | src/vinctor_core/infer.py:44-49 | the latest sighting is the greatest of the dated ones, and there is none without one |
| ScopeInferenceTheorems.LessIsLexicographic | src/vinctor_core/infer.py:95-129 | the order of proposals and covers: a prefix first, otherwise by the first different character |
| ScopeInferenceTheorems.ResultIgnoresOrder | src/vinctor_core/infer.py:52-129 | permuting the observations changes nothing |
| ScopeInferenceTheorems.CoversPartition | src/vinctor_core/infer.py:97-127 | each kept pair is covered by exactly one proposal |
| ScopeInferenceTheorems.ProposedExactly | src/vinctor_core/infer.py:97-129 | a kept pair is proposed by a wildcard over its siblings exactly on request, with three or more segments and a kept sibling; otherwise by itself, with its own count and sighting |
| ScopeInferenceTheorems.CountsConserved | src/vinctor_core/infer.py:97-127 | the proposals' counts add up to the counts of all kept pairs, each taken once |
| ScopeInferenceTheorems.ProposalReportsWhatItCovers | src/vinctor_core/infer.py:97-127 | a proposal carries the total of all observations under the scopes it covers, and the latest sighting of any of them |
| ScopeInferenceTheorems.ProposalsMatchWhatTheyCover | src/vinctor_core/infer.py:97-127 | every proposal is a valid scope and matches all it covers, which was all observed |
| ScopeInferenceTheorems.WildcardsNeedDeepSiblings | src/vinctor_core/infer.py:103-120 | a wildcard needs two observed siblings under a parent of two or more segments |
| ScopeInference.DeepParentGivesValidWildcard | src/vinctor_core/infer.py:104-106 | below a deep parent the validity test of the wildcard never fails |

## Left out

- PostgreSQL variants of the store and the lifecycle: their correctness rests on isolation levels, advisory locks and driver recovery.
- Real cryptography and hashing: AES-GCM is an ideal AEAD, SHA-256 commitments are injective values; base64 and JSON parsing, request canonicalisation and fingerprint hashing.
- Snapshots, restores, schema migration, file locks and writer attestation: a restore rolls history back and is not a step of the model.
- Corrupted rows: the tables only ever hold what the transactions wrote; type errors while reading a row do not arise.
- ReadinessProbe is modelled on values, not as a class: every Event operation of a worker, a caller or the closer can fall between any two others, so no method body runs undisturbed. Reporting to stderr, the limit-report flag and the join at shutdown are not modelled; deadlines are an abstract clock.
- The reclaimer's thread: only its event and its clearing are steps; a reclaimer that could not start is started again by a later abandonment.
- HTTP routing, identity resolution, query-string parsing beyond empty values and unknown event classes, and the output allowlist: a report event carries the whole audit event instead.
- The fetches of a grant request and of a grant are results handed to `GrantRequestReport`; that a record is the one asked for is not modelled.
- The SQLite and in-memory logs are one sequence of events; sequences are positions in it.
- AuthorityRuns treats reading the bounds, inserting a grant and compare-and-set on a request as single accesses; the storage services run the whole decision in one transaction, which is the interleaving in which its steps follow each other (`AuthorityCalls`).
- A crash between claiming a decision and finishing it: in memory nothing survives it, in the storage services the transaction rolls back.
- Pre-seeded grants and bounds, subject tokens, proof of possession, delegated enforcement, enforcement settings and audit events of the authority chain.
- Grant ids, the decision timestamps' time zones and the text of refusal details.
- AuditExport.OtlpHttpExport.RunOnce: runs one round while nobody else moves; the interleaved worker is the step function beside it.
- The clock of the wait for room in `close()`: it may end at any moment, and whoever moves during it takes steps of its own.
- OTLP serialisation, endpoint validation, a sleeper that raises while waiting to retry, and the deferral of exports to the outermost commit.
- The audit write of a throttled event is best effort: an emission is the attempt.
- ISO-8601 timestamps in scope inference are numbers, which sort alike.
