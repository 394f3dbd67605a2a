/** What each transaction of the store does to the tables, as one step from table state to table state. */
module IdempotencyTransactions {
  import opened Common
  import opened ResponseCodec
  import opened AssociatedData
  import opened IdempotencyModel

  // ---- keyring registration -----------------------------------------------------------------

  predicate LabelFree(db: Db, key: KeyVersion) {
    key.version !in db.versions && forall v | v in db.versions :: db.versions[v].commitment != Commitment(key.material)
  }

  predicate LabelHeld(db: Db, key: KeyVersion) {
    key.version in db.versions && db.versions[key.version].commitment == Commitment(key.material)
  }

  /** Every key is registered under its own label with its own commitment. */
  predicate Registered(db: Db, kr: Keyring) {
    ValidKeyring(kr) && forall k | k in kr.keys :: LabelHeld(db, k)
  }

  function FreshVersion(key: KeyVersion, now: Epoch): VersionRow {
    VersionRow(Commitment(key.material), 0, now, None, None, None, None, None)
  }

  function RegisterKeys(db: Db, keys: seq<KeyVersion>, now: Epoch): Result<Db, Failure>
    decreases |keys|
  {
    if keys == [] then Ok(db)
    else if LabelHeld(db, keys[0]) then RegisterKeys(db, keys[1..], now)
    else if LabelFree(db, keys[0]) then
      RegisterKeys(db.(versions := db.versions[keys[0].version := FreshVersion(keys[0], now)]), keys[1..], now)
    else Err(WriteUnavailable)
  }

  // ---- nonce reservation --------------------------------------------------------------------

  datatype ReserveOutcome =
    | Reserved(reservation: Reservation)
    | DisableNeeded(version: Label, reason: Reason)
    | Refused

  /** INSERT OR IGNORE drops the row on a taken nonce, a taken slot or a failed CHECK. */
  predicate LedgerAccepts(db: Db, id: NonceId, slot: nat, owner: Owner, now: Epoch) {
    && id !in db.ledger
    && (forall k | k in db.ledger && k.version == id.version :: db.ledger[k].slot != slot)
    && ValidOwner(owner) && now >= 0
  }

  /** `nonce` is None when the nonce source raised. */
  function Reserve(db: Db, kr: Option<Keyring>, inv: Invocation, now: Epoch, nonce: Option<Bytes>): (Db, ReserveOutcome)
  {
    if kr.None? || kr.value.active !in db.versions then (db, Refused)
    else
      var version := kr.value.active;
      var row := db.versions[version];
      if !row.Writable() then (db, Refused)
      else if row.slots >= HARD_SLOT_LIMIT then (db, DisableNeeded(version, HardLimit))
      else
        var slot := row.slots + 1;
        var report := slot >= SOFT_SLOT_LIMIT && row.softReported.None?;
        if report && now < row.firstSeen then (db, Refused)
        else if nonce.None? || |nonce.value| != NONCE_BYTES then (db, Refused)
        else if !LedgerAccepts(db, NonceId(version, nonce.value), slot, inv.ReservationOwner(), now) then
          (db, DisableNeeded(version, NonceCollision))
        else
          var bumped := row.(slots := slot, softReported := if report then Some(now) else row.softReported);
          (db.(versions := db.versions[version := bumped],
               ledger := db.ledger[NonceId(version, nonce.value) := NonceRow(slot, now, inv.ReservationOwner(), None)]),
           Reserved(Reservation(version, slot, nonce.value, now)))
  }

  // ---- write disable, drain, retire ---------------------------------------------------------

  datatype LifecycleError =
    | UnknownVersion | VersionRetired | WriteDisableReasonConflict | WriteDisableRequired | DrainCompletionRequired
    | RemovalWindowNotElapsed | ActiveReplacementUnavailable | UnexpiredResultsRemain | LifecycleUnavailable

  /** The store's own write disable: COALESCE keeps an earlier epoch and reason. */
  function WriteDisable(db: Db, version: Label, reason: Reason, now: Epoch): Db {
    if version !in db.versions || db.versions[version].retired.Some? || db.versions[version].writeDisabled.Some?
       || now < db.versions[version].firstSeen then db
    else
      var closed := db.versions[version].(writeDisabled := Some(now), reason := Some(reason));
      db.(versions := db.versions[version := closed])
  }

  /** The operator's write disable; an epoch before first_seen fails the table's CHECK. */
  function DisableCall(db: Db, version: Label, reason: Reason, now: Epoch): Result<Db, LifecycleError> {
    if version !in db.versions then Err(UnknownVersion)
    else
      var row := db.versions[version];
      if row.retired.Some? then Err(VersionRetired)
      else if row.writeDisabled.Some? && row.reason != Some(reason) then Err(WriteDisableReasonConflict)
      else if row.writeDisabled.Some? then Ok(db)
      else if now < row.firstSeen then Err(LifecycleUnavailable)
      else Ok(WriteDisable(db, version, reason, now))
  }

  /** A drain epoch before the disable epoch fails the table's CHECK. */
  function DrainCall(db: Db, version: Label, now: Epoch): Result<Db, LifecycleError> {
    if version !in db.versions then Err(UnknownVersion)
    else
      var row := db.versions[version];
      if row.writeDisabled.None? then Err(WriteDisableRequired)
      else if row.retired.Some? then Err(VersionRetired)
      else if row.drained.Some? then Ok(db)
      else if now < row.writeDisabled.value then Err(LifecycleUnavailable)
      else Ok(db.(versions := db.versions[version := row.(drained := Some(now))]))
  }

  function CompleteDrain(db: Db, version: Label, now: Epoch): Db {
    var r := DrainCall(db, version, now);
    if r.Ok? then r.value else db
  }

  predicate OfVersion(row: ResultRow, version: Label) { row.version == version }

  /** The guard of the retirement UPDATE, apart from the result rows. */
  predicate MayRetire(db: Db, version: Label, active: Label, now: Epoch) {
    && version in db.versions && db.versions[version].writeDisabled.Some?
    && db.versions[version].drained.Some? && db.versions[version].drained.value + REMOVAL_WINDOW_SECONDS <= now
    && active in db.versions && db.versions[active].Writable()
  }

  function RowsOfVersion(rows: seq<ResultRow>, version: Label): set<ResultRow> {
    set r | r in rows && OfVersion(r, version)
  }

  predicate AllExpired(rows: seq<ResultRow>, version: Label, now: Epoch) {
    forall r | r in rows && OfVersion(r, version) :: r.expires <= now
  }

  predicate AllAuthentic(kr: Option<Keyring>, rows: set<ResultRow>) {
    forall r | r in rows :: Authentic(kr, r)
  }

  function RetireTransaction(db: Db, version: Label, active: Label, kr: Option<Keyring>,
                             now: Epoch): Result<Db, LifecycleError>
  {
    if !AllExpired(db.results, version, now) then Err(UnexpiredResultsRemain)
    else if !AllAuthentic(kr, RowsOfVersion(db.results, version)) then Err(LifecycleUnavailable)
    else if !MayRetire(db, version, active, now) then Err(LifecycleUnavailable)
    else
      var row := db.versions[version];
      Ok(db.(results := Except(db.results, RowsOfVersion(db.results, version)),
             versions := db.versions[version := row.(retired := if row.retired.Some? then row.retired else Some(now))]))
  }

  /** retire(): the lifecycle checks on an earlier read of the clock, then the transaction. */
  function RetireCall(db: Db, version: Label, active: Label, kr: Option<Keyring>, checkNow: Epoch,
                      now: Epoch): Result<Db, LifecycleError>
  {
    if version !in db.versions then Err(UnknownVersion)
    else if db.versions[version].retired.Some? then Ok(db)
    else if db.versions[version].writeDisabled.None? || db.versions[version].drained.None? then
      Err(DrainCompletionRequired)
    else if checkNow < db.versions[version].drained.value + REMOVAL_WINDOW_SECONDS then Err(RemovalWindowNotElapsed)
    else if active !in db.versions then Err(UnknownVersion)
    else if !db.versions[active].Writable() then Err(ActiveReplacementUnavailable)
    else RetireTransaction(db, version, active, kr, now)
  }

  predicate Authentic(kr: Option<Keyring>, row: ResultRow) {
    ValidOwner(Owner(row.id, row.fingerprint)) && OpenResult(kr, row.id, row).Some?
  }

  // ---- garbage collection -------------------------------------------------------------------

  /** The first `budget` expired rows in rowid order. */
  function ExpiredBatch(rows: seq<ResultRow>, now: Epoch, budget: nat): (batch: seq<ResultRow>)
    ensures |batch| <= budget
    ensures forall r | r in batch :: r in rows && r.expires <= now
  {
    if rows == [] || budget == 0 then []
    else if rows[0].expires <= now then [rows[0]] + ExpiredBatch(rows[1..], now, budget - 1)
    else ExpiredBatch(rows[1..], now, budget)
  }

  function GcBudget(limit: int): nat {
    if limit <= 0 then 0 else if limit < GC_BATCH_LIMIT then limit else GC_BATCH_LIMIT
  }

  function RowOwner(row: ResultRow): Invocation {
    Invocation(row.id, row.fingerprint, MAX_TERMINAL_TTL_SECONDS)
  }

  /** An expired row proceeds exactly when it authenticates; a replay is out of the question. */
  lemma ExpiredRowsProceed(row: ResultRow, kr: Option<Keyring>, now: Epoch)
    requires row.expires <= now
    ensures Classify(RowOwner(row), Some(row), kr, now) == Ok(None) <==> Authentic(kr, row)
    ensures Classify(RowOwner(row), Some(row), kr, now).Err? <==> !Authentic(kr, row)
  {
    hide OpenResult;
  }

  function CollectGarbage(db: Db, kr: Option<Keyring>, limit: int, now: Epoch): (Db, Result<nat, Failure>) {
    var batch := ExpiredBatch(db.results, now, GcBudget(limit));
    if !AllAuthentic(kr, RowSet(batch)) then (db, Err(ResultUnavailable))
    else (db.(results := Except(db.results, RowSet(batch))), Ok(|batch|))
  }

  // ---- claim --------------------------------------------------------------------------------

  /** The ledger row of exactly this reservation and owner. */
  predicate LedgerHolds(db: Db, owner: Owner, res: Reservation) {
    var id := NonceId(res.version, res.nonce);
    && id in db.ledger && db.ledger[id].slot == res.slot && db.ledger[id].reservedAt == res.reservedAt
    && db.ledger[id].owner == owner
  }

  predicate ResultUsesNonce(db: Db, version: Label, nonce: Bytes) {
    exists r | r in db.results :: r.version == version && r.nonce == nonce
  }

  function Claim(db: Db, inv: Invocation, res: Reservation, now: Epoch): Result<Db, Failure> {
    var id := NonceId(res.version, res.nonce);
    if LedgerHolds(db, inv.ReservationOwner(), res) && db.ledger[id].claimedAt.None? && now >= res.reservedAt
       && !ResultUsesNonce(db, res.version, res.nonce) then
      Ok(db.(ledger := db.ledger[id := db.ledger[id].(claimedAt := Some(now))]))
    else Err(WriteUnavailable)
  }

  // ---- complete -----------------------------------------------------------------------------

  /** A business mutation that committed; `stored` is the result row committed with it, if any. */
  datatype Commit = Commit(id: ResultId, fingerprint: Bytes, response: Response, at: Epoch, stored: Option<ResultRow>)

  /** The completing transaction as its body leaves it; on an error reply the transaction rolls back. */
  datatype Completion = Completion(
    db: Db,
    reply: Result<Response, Failure>,
    commit: Option<Commit>,
    sealing: Option<Sealing>)

  function RolledBack(db: Db, failure: Failure, sealing: Option<Sealing>): Completion {
    Completion(db, Err(failure), None, sealing)
  }

  /** require_reservation_authentic followed by the claim test. */
  predicate MayComplete(db: Db, owner: Owner, res: Reservation) {
    && LedgerHolds(db, owner, res)
    && res.version in db.versions && db.versions[res.version].Writable()
    && db.ledger[NonceId(res.version, res.nonce)].claimedAt.Some?
  }

  function Complete(db: Db, kr: Option<Keyring>, inv: Invocation, res: Reservation, outcome: Option<Outcome>,
                    now: Epoch): Completion
  {
    if !MayComplete(db, inv.ReservationOwner(), res) || ResultUsesNonce(db, res.version, res.nonce) then
      RolledBack(db, WriteUnavailable, None)
    else match Classify(inv, LoadResult(db.results, inv.id), kr, now)
      case Err(failure) => RolledBack(db, failure, None)
      case Ok(Some(response)) => Completion(db, Ok(response), None, None)
      case Ok(None) =>
        if outcome.None? then RolledBack(db, MutationRaised, None)
        else CompleteMutation(db, kr, inv, res, outcome.value, now)
  }

  /** The transaction from the moment the mutation has returned. */
  function CompleteMutation(db: Db, kr: Option<Keyring>, inv: Invocation, res: Reservation, outcome: Outcome,
                            now: Epoch): Completion
  {
    var rows := DeleteResult(db.results, inv.id);
    var expires := TerminalExpiry(inv, now, outcome.replayNotAfter);
    if expires <= now then
      Completion(db.(results := rows), Ok(outcome.response),
                 Some(Commit(inv.id, inv.fingerprint, outcome.response, now, None)), None)
    else match SealOutcome(kr, inv.ReservationOwner(), res, outcome.response, now, expires)
      case NotSealed(failure) => RolledBack(db, failure, None)
      case WasSealed(ciphertext, sealing) =>
        if !(200 <= outcome.response.status <= 499) then RolledBack(db, WriteUnavailable, Some(sealing))
        else
          var row := ResultRow(inv.id, inv.fingerprint, ENVELOPE_FORMAT_VERSION, outcome.response.status,
                               res.version, res.nonce, ciphertext, now, expires);
          Completion(db.(results := rows + [row]), Ok(outcome.response),
                     Some(Commit(inv.id, inv.fingerprint, outcome.response, now, Some(row))), Some(sealing))
  }

  // ---- whole calls, undisturbed -------------------------------------------------------------

  /** complete(): a lookup, the claim and the completing transaction, each at the epoch it reads itself. */
  function CompleteCall(db: Db, kr: Option<Keyring>, inv: Invocation, res: Reservation, outcome: Option<Outcome>,
                        lookupNow: Epoch, claimNow: Epoch, completeNow: Epoch): Completion
  {
    match Classify(inv, LoadResult(db.results, inv.id), kr, lookupNow)
    case Err(e) => RolledBack(db, if e.ResultUnavailable? then WriteUnavailable else e, None)
    case Ok(Some(response)) => Completion(db, Ok(response), None, None)
    case Ok(None) =>
      match Claim(db, inv, res, claimNow)
      case Err(e) => RolledBack(db, e, None)
      case Ok(claimed) => Complete(claimed, kr, inv, res, outcome, completeNow)
  }

  /** execute(): a lookup, the reservation and then complete(). */
  function ExecuteCall(db: Db, kr: Option<Keyring>, inv: Invocation, outcome: Option<Outcome>, nonce: Option<Bytes>,
                       now: Epoch, lookupNow: Epoch, claimNow: Epoch, completeNow: Epoch): Completion
  {
    match Classify(inv, LoadResult(db.results, inv.id), kr, now)
    case Err(e) => RolledBack(db, e, None)
    case Ok(Some(response)) => Completion(db, Ok(response), None, None)
    case Ok(None) =>
      var (reserved, result) := Reserve(db, kr, inv, now, nonce);
      match result
      case Reserved(res) => CompleteCall(reserved, kr, inv, res, outcome, lookupNow, claimNow, completeNow)
      case DisableNeeded(version, reason) => RolledBack(WriteDisable(db, version, reason, now), WriteUnavailable, None)
      case Refused => RolledBack(db, WriteUnavailable, None)
  }

  /** What a completing transaction promises about its reply, its commit and its encryption. */
  ghost predicate Faithful(db: Db, kr: Option<Keyring>, inv: Invocation, res: Reservation, outcome: Option<Outcome>,
                           now: Epoch, t: Completion)
  {
    && UniqueResultIds(t.db.results) && t.db.versions == db.versions && t.db.ledger == db.ledger
    && (t.commit.None? ==> t.db == db)
    && (t.sealing.Some? ==>
          && t.sealing.value.version == res.version && t.sealing.value.nonce == res.nonce
          && DecryptionKey(kr, res.version) == Some(KeyVersion(res.version, t.sealing.value.material)))
    && (t.commit.Some? ==>
          var commit := t.commit.value;
          && outcome.Some? && t.reply == Ok(outcome.value.response)
          && commit == Commit(inv.id, inv.fingerprint, outcome.value.response, now, commit.stored)
          && LoadResult(t.db.results, inv.id) == commit.stored
          && (forall r: ResultRow | r.id != inv.id :: r in t.db.results <==> r in db.results)
          && (commit.stored.Some? ==>
                && FaithfulRow(commit.stored.value, inv, res, now)
                && t.sealing.Some? && SealedFor(commit.stored.value, t.sealing.value.material, commit.response)))
  }

  ghost predicate FaithfulRow(row: ResultRow, inv: Invocation, res: Reservation, now: Epoch) {
    && row.id == inv.id && row.fingerprint == inv.fingerprint && row.version == res.version && row.nonce == res.nonce
    && row.created == now && now < row.expires <= now + MAX_TERMINAL_TTL_SECONDS
  }

  lemma MutationIsFaithful(db: Db, kr: Option<Keyring>, inv: Invocation, res: Reservation, outcome: Outcome, now: Epoch)
    requires UniqueResultIds(db.results)
    ensures Faithful(db, kr, inv, res, Some(outcome), now, CompleteMutation(db, kr, inv, res, outcome, now))
  {
    hide SealOutcome;
    hide SealedFor;
    hide DeleteResult;
    hide LoadResult;
    var t := CompleteMutation(db, kr, inv, res, outcome, now);
    var expires := TerminalExpiry(inv, now, outcome.replayNotAfter);
    if now < expires && SealOutcome(kr, inv.ReservationOwner(), res, outcome.response, now, expires).WasSealed? {
      SealFacts(kr, inv.ReservationOwner(), res, outcome.response, now, expires);
    }
    if t.commit.Some? && t.commit.value.stored.Some? {
      LoadFindsTheRow(t.db.results, t.commit.value.stored.value);
    }
  }

  /** A committed mutation is stored under the caller's identity or nothing is stored there any more; it ran
      only because no live result was there; and whatever reached the cipher carries the reservation's own
      version and nonce. */
  lemma CompletionIsFaithful(db: Db, kr: Option<Keyring>, inv: Invocation, res: Reservation, outcome: Option<Outcome>,
                             now: Epoch)
    requires UniqueResultIds(db.results)
    ensures var t := Complete(db, kr, inv, res, outcome, now);
      && Faithful(db, kr, inv, res, outcome, now, t)
      && (t.commit.Some? || t.sealing.Some? ==>
            && MayComplete(db, inv.ReservationOwner(), res) && ValidOwner(inv.ReservationOwner())
            && !ResultUsesNonce(db, res.version, res.nonce)
            && (forall r | r in db.results && r.id == inv.id :: r.expires <= now))
  {
    hide Classify;
    hide SealOutcome;
    hide SealedFor;
    var t := Complete(db, kr, inv, res, outcome, now);
    if t.commit.Some? || t.sealing.Some? {
      ProceedMeansExpired(inv, LoadResult(db.results, inv.id), kr, now);
      forall r | r in db.results && r.id == inv.id ensures r.expires <= now { LoadFindsTheRow(db.results, r); }
      MutationIsFaithful(db, kr, inv, res, outcome.value, now);
    }
  }

  lemma CallIsFaithful(db: Db, kr: Option<Keyring>, inv: Invocation, res: Reservation, outcome: Option<Outcome>,
                       lookupNow: Epoch, claimNow: Epoch, completeNow: Epoch)
    requires UniqueResultIds(db.results)
    ensures var t := CompleteCall(db, kr, inv, res, outcome, lookupNow, claimNow, completeNow);
      && (t.commit.Some? ==>
            && outcome.Some? && t.reply == Ok(outcome.value.response)
            && t.commit.value ==
               Commit(inv.id, inv.fingerprint, outcome.value.response, completeNow, t.commit.value.stored)
            && LoadResult(t.db.results, inv.id) == t.commit.value.stored)
      && (t.sealing.Some? ==> t.sealing.value.version == res.version && t.sealing.value.nonce == res.nonce)
  {
    hide Classify;
    hide Complete;
    hide LedgerHolds;
    hide ResultUsesNonce;
    if Claim(db, inv, res, claimNow).Ok? {
      CompletionIsFaithful(Claim(db, inv, res, claimNow).value, kr, inv, res, outcome, completeNow);
    }
  }

  /** A live, conflicting or unreadable result is answered without touching anything; a commit is the mutation's
      own outcome, stored under this invocation when it is stored at all; and what reaches the cipher is the nonce
      reserved by this call, never seen before, under the active version. */
  lemma ExecutionIsFaithful(db: Db, kr: Option<Keyring>, inv: Invocation, outcome: Option<Outcome>,
                            nonce: Option<Bytes>,
                            now: Epoch, lookupNow: Epoch, claimNow: Epoch, completeNow: Epoch)
    requires UniqueResultIds(db.results)
    ensures var t := ExecuteCall(db, kr, inv, outcome, nonce, now, lookupNow, claimNow, completeNow);
      && (Classify(inv, LoadResult(db.results, inv.id), kr, now) != Ok(None) ==>
            t.db == db && t.commit.None? && t.sealing.None?)
      && (t.commit.Some? ==>
            && outcome.Some? && t.reply == Ok(outcome.value.response)
            && t.commit.value ==
               Commit(inv.id, inv.fingerprint, outcome.value.response, completeNow, t.commit.value.stored)
            && LoadResult(t.db.results, inv.id) == t.commit.value.stored)
      && (t.sealing.Some? ==>
            && nonce == Some(t.sealing.value.nonce) && kr.Some? && t.sealing.value.version == kr.value.active
            && NonceId(t.sealing.value.version, t.sealing.value.nonce) !in db.ledger)
  {
    hide Classify;
    hide CompleteCall;
    hide LoadResult;
    hide ValidOwner;
    var (reserved, result) := Reserve(db, kr, inv, now, nonce);
    if result.Reserved? {
      CallIsFaithful(reserved, kr, inv, result.reservation, outcome, lookupNow, claimNow, completeNow);
    }
  }
}
