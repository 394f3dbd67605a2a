/** What the encrypted idempotency store promises, proved of every run from an empty database. */
module IdempotencyTheorems {
  import opened Common
  import opened ResponseCodec
  import opened IdempotencyModel
  import opened IdempotencyTransactions
  import opened IdempotencyAnswers
  import opened IdempotencyTables
  import opened IdempotencyRuns
  import opened IdempotencyHistory

  // ---- effects happen at most once ----------------------------------------------------------

  /** Between the commit of a stored result and its expiry no other mutation commits under that identity. */
  lemma AtMostOnce(t0: Epoch, steps: seq<Step>, i: nat, j: nat)
    ensures var commits := Run(Start(t0), steps).commits;
      i < j < |commits| && commits[i].id == commits[j].id && commits[i].stored.Some?
      ==> commits[i].stored.value.expires <= commits[j].at
  {
    Reachable(t0, steps);
    hide TablesOk;
    hide CallersOk;
    hide StoredOk;
  }

  /** Only an outcome that is itself not to be replayed is left unstored; any other lives for the shortest of
      the terminal cap, the operation's own limit and the outcome's own limit. */
  lemma StoredUnlessAlreadyOver(db: Db, kr: Option<Keyring>, inv: Invocation, res: Reservation,
                                outcome: Option<Outcome>, now: Epoch)
    requires Complete(db, kr, inv, res, outcome, now).commit.Some?
    ensures var k := Complete(db, kr, inv, res, outcome, now).commit.value;
      var limit := outcome.value.replayNotAfter;
      && (k.stored.None? <==> limit.Some? && limit.value <= now)
      && (k.stored.Some? ==>
            var life := k.stored.value.expires - now;
            && 0 < life <= MAX_TERMINAL_TTL_SECONDS
            && (inv.maxTerminalTtl > 0 ==> life <= inv.maxTerminalTtl)
            && (limit.Some? ==> life <= limit.value - now)
            && (life == MAX_TERMINAL_TTL_SECONDS || life == inv.maxTerminalTtl || limit == Some(now + life)))
  {
    hide Classify;
    hide SealOutcome;
    hide DeleteResult;
  }

  /** While a committed result lives, whoever retries is answered from it: its own response for the same
      fingerprint, a conflict for another, an unreadable-result error without its key. Nobody proceeds. */
  lemma LiveResultAnswersRetries(t0: Epoch, steps: seq<Step>, k: Commit, inv: Invocation, kr: Option<Keyring>,
                                 now: Epoch)
    requires var w := Run(Start(t0), steps);
      && k in w.commits && Live(k, w.clock) && k.id == inv.id && now <= w.clock
      && Ready(w.db, kr) && ValidOwner(inv.ReservationOwner())
    ensures Classify(inv, LoadResult(Run(Start(t0), steps).db.results, inv.id), kr, now) ==
      if DecryptionKey(kr, k.stored.value.version).None? then Err(ResultUnavailable)
      else if k.fingerprint == inv.fingerprint then Ok(Some(k.response))
      else Err(Conflict)
  {
    var w := Run(Start(t0), steps);
    Reachable(t0, steps);
    LiveRowLoads(w, k);
    hide Inv;
    hide Run;
    hide Ready;
    hide SealedFor;
    hide Classify;
    var row := k.stored.value;
    var material := w.db.versions[row.version].commitment.material;
    if DecryptionKey(kr, row.version).Some? {
      KeyIsRegistered(w.db, kr, row.version);
      LiveRowAnswers(inv, kr, row, material, k.response, now);
    } else {
      UnreadableWithoutKey(inv, row, kr, now);
    }
  }

  lemma UnreadableWithoutKey(inv: Invocation, row: ResultRow, kr: Option<Keyring>, now: Epoch)
    requires DecryptionKey(kr, row.version).None? && ValidOwner(inv.ReservationOwner())
    ensures Classify(inv, Some(row), kr, now) == Err(ResultUnavailable)
  {
  }

  lemma LiveRowLoads(w: World, k: Commit)
    requires Inv(w) && k in w.commits && Live(k, w.clock)
    ensures StoredOk(w.db, k) && LoadResult(w.db.results, k.id) == k.stored
  {
    hide CallersOk;
    hide VersionsOk;
    hide LedgerOk;
    hide SealedFor;
    assert StoredOk(w.db, k);
    LoadFindsTheRow(w.db.results, k.stored.value);
  }

  /** So a completing transaction under a live result changes nothing and encrypts nothing. */
  lemma LiveResultBlocksMutation(t0: Epoch, steps: seq<Step>, k: Commit, inv: Invocation, kr: Option<Keyring>,
                                 res: Reservation, outcome: Option<Outcome>)
    requires var w := Run(Start(t0), steps);
      k in w.commits && Live(k, w.clock) && k.id == inv.id
    ensures var w := Run(Start(t0), steps);
      var t := Complete(w.db, kr, inv, res, outcome, w.clock);
      t.db == w.db && t.commit.None? && t.sealing.None?
  {
    var w := Run(Start(t0), steps);
    Reachable(t0, steps);
    LiveRowLoads(w, k);
    assert UniqueResultIds(w.db.results) by { ResultsUnique(w.db, w.clock); }
    hide Inv;
    hide Run;
    hide Complete;
    hide StoredOk;
    CompletionIsFaithful(w.db, kr, inv, res, outcome, w.clock);
    assert k.stored.value in w.db.results;
  }

  /** Every response handed out from the store is the response of a commit of the same identity and
      fingerprint that had not expired at the epoch the lookup was judged by. */
  lemma ReplayedResponseIsFirstResponse(t0: Epoch, steps: seq<Step>, p: Replay)
    requires p in Run(Start(t0), steps).replays
    ensures exists k | k in Run(Start(t0), steps).commits :: AnswersFrom(p, k)
  {
    Reachable(t0, steps);
    hide TablesOk;
    hide CallersOk;
    hide StoredOk;
    hide AnswersFrom;
    assert ReplayOk(Run(Start(t0), steps).commits, p);
  }

  // ---- no nonce is used twice ---------------------------------------------------------------

  /** No key is ever used twice with one nonce, counting encryptions whose transaction rolled back. */
  lemma NonceSingleUse(t0: Epoch, steps: seq<Step>, i: nat, j: nat)
    ensures var sealings := Run(Start(t0), steps).sealings;
      i < j < |sealings| ==> sealings[i].material != sealings[j].material || sealings[i].nonce != sealings[j].nonce
  {
    var w := Run(Start(t0), steps);
    Reachable(t0, steps);
    hide CallersOk;
    hide LedgerOk;
    hide ResultsOk;
    hide StoredOk;
    hide Run;
    if i < j < |w.sealings| {
      assert SealingOk(w.db, w.sealings[i]) && SealingOk(w.db, w.sealings[j]);
    }
  }

  // ---- retirement ---------------------------------------------------------------------------

  /** Once the removal window has passed, everything written under the version has expired. */
  lemma WindowOutlivesResults(t0: Epoch, steps: seq<Step>, version: Label)
    requires var w := Run(Start(t0), steps);
      && version in w.db.versions && w.db.versions[version].drained.Some?
      && w.db.versions[version].drained.value + REMOVAL_WINDOW_SECONDS <= w.clock
    ensures var w := Run(Start(t0), steps); AllExpired(w.db.results, version, w.clock)
  {
    var w := Run(Start(t0), steps);
    Reachable(t0, steps);
    hide CallersOk;
    hide HistoryOk;
    hide LedgerOk;
    hide Run;
    forall r | r in w.db.results && OfVersion(r, version) ensures r.expires <= w.clock {
      assert RowOk(r, w.db, w.clock);
    }
  }

  /** A stored row authenticates exactly for the keyrings that hold its version. */
  lemma AuthenticIffKeyHeld(w: World, kr: Option<Keyring>, row: ResultRow)
    requires Inv(w) && Ready(w.db, kr) && row in w.db.results
    ensures Authentic(kr, row) <==> DecryptionKey(kr, row.version).Some?
  {
    hide TablesOk;
    hide CallersOk;
    hide SealedFor;
    hide Ready;
    hide RowAad;
    assert CommittedRow(w.commits, row);
    var k :| k in w.commits && k.stored == Some(row);
    assert StoredOk(w.db, k);
    var material := w.db.versions[row.version].commitment.material;
    OpenSealed(kr, row, material, k.response);
    if DecryptionKey(kr, row.version).Some? {
      KeyIsRegistered(w.db, kr, row.version);
      SealedPlaintext(row, material, k.response);
    }
  }

  lemma SealedPlaintext(row: ResultRow, material: Bytes, response: Response)
    requires SealedFor(row, material, response)
    ensures EncodePlaintext(response).Some?
  {
  }

  /** retire() never reports unexpired results, and past its own checks it succeeds exactly when the keyring
      still holds the key of what is left to delete. */
  lemma RetirementOutcome(t0: Epoch, steps: seq<Step>, version: Label, active: Label, kr: Option<Keyring>,
                          checkNow: Epoch)
    requires var w := Run(Start(t0), steps); Ready(w.db, kr) && checkNow <= w.clock
    ensures var w := Run(Start(t0), steps);
      var r := RetireCall(w.db, version, active, kr, checkNow, w.clock);
      && r != Err(UnexpiredResultsRemain)
      && (MayRetire(w.db, version, active, checkNow) && w.db.versions[version].retired.None? ==>
            (r.Ok? <==> DecryptionKey(kr, version).Some? || RowsOfVersion(w.db.results, version) == {}))
  {
    var w := Run(Start(t0), steps);
    Reachable(t0, steps);
    hide Inv;
    hide Run;
    hide Ready;
    hide Authentic;
    if MayRetire(w.db, version, active, checkNow) {
      assert AllExpired(w.db.results, version, w.clock) by { WindowOutlivesResults(t0, steps, version); }
      forall r | r in w.db.results ensures Authentic(kr, r) <==> DecryptionKey(kr, r.version).Some? {
        AuthenticIffKeyHeld(w, kr, r);
      }
      if AllAuthentic(kr, RowsOfVersion(w.db.results, version)) && RowsOfVersion(w.db.results, version) != {} {
        var r :| r in RowsOfVersion(w.db.results, version);
        assert Authentic(kr, r);
      }
    }
  }

  /** Garbage collection by a process that holds every stored version's key removes min(budget, expired) rows. */
  lemma CollectionSucceeds(t0: Epoch, steps: seq<Step>, kr: Option<Keyring>, limit: int)
    requires var w := Run(Start(t0), steps);
      Ready(w.db, kr) && forall r | r in w.db.results :: DecryptionKey(kr, r.version).Some?
    ensures var w := Run(Start(t0), steps);
      var (db, r) := CollectGarbage(w.db, kr, limit, w.clock);
      && r.Ok? && r.value <= GcBudget(limit)
      && (r.value < GcBudget(limit) ==> forall row | row in db.results :: row.expires > w.clock)
      && (forall row | row in w.db.results && row.expires > w.clock :: row in db.results)
  {
    var w := Run(Start(t0), steps);
    Reachable(t0, steps);
    hide Inv;
    hide Run;
    hide Ready;
    hide Authentic;
    forall r | r in w.db.results ensures Authentic(kr, r) { AuthenticIffKeyHeld(w, kr, r); }
    if |ExpiredBatch(w.db.results, w.clock, GcBudget(limit))| < GcBudget(limit) {
      ShortBatchIsAll(w.db.results, w.clock, GcBudget(limit));
    }
  }

  /** Under a budget the oldest rows go first: an expired row before a collected one is collected too. */
  lemma {:induction false} OldestAreCollectedFirst(rows: seq<ResultRow>, now: Epoch, budget: nat, i: nat, j: nat)
    requires UniqueResultIds(rows) && i < j < |rows| && rows[i].expires <= now
    requires rows[j] in ExpiredBatch(rows, now, budget)
    ensures rows[i] in ExpiredBatch(rows, now, budget)
  {
    if i > 0 {
      var rest := if rows[0].expires <= now then budget - 1 else budget;
      assert rows[j] in ExpiredBatch(rows[1..], now, rest);
      OldestAreCollectedFirst(rows[1..], now, rest, i - 1, j - 1);
    }
  }

  // ---- key lifecycle ------------------------------------------------------------------------

  /** In every reachable state the barriers are in order and no stored result names a retired version. */
  lemma LifecycleInOrder(t0: Epoch, steps: seq<Step>, version: Label)
    requires version in Run(Start(t0), steps).db.versions
    ensures var w := Run(Start(t0), steps);
      var row := w.db.versions[version];
      && (row.drained.Some? ==> row.writeDisabled.Some? && row.writeDisabled.value <= row.drained.value <= w.clock)
      && (row.retired.Some? ==>
            row.drained.Some? && row.drained.value + REMOVAL_WINDOW_SECONDS <= row.retired.value <= w.clock)
      && (row.retired.Some? ==> forall r | r in w.db.results :: r.version != version)
  {
    var w := Run(Start(t0), steps);
    Reachable(t0, steps);
    hide CallersOk;
    hide HistoryOk;
    hide LedgerOk;
    hide Run;
    assert LifecycleOk(w.db.versions[version], w.clock);
    forall r | r in w.db.results && r.version == version ensures w.db.versions[version].retired.None? {
      assert RowOk(r, w.db, w.clock);
    }
  }

  /** Whatever happens next, an epoch once written stays, and a version that is disabled or retired gets no
      further slot and no further result. */
  lemma LifecycleOnlyAdvances(t0: Epoch, steps: seq<Step>, more: seq<Step>, version: Label)
    requires version in Run(Start(t0), steps).db.versions
    ensures var before := Run(Start(t0), steps).db;
      var after := Run(Run(Start(t0), steps), more).db;
      && version in after.versions && VersionEvolves(before.versions[version], after.versions[version])
      && (!before.versions[version].Writable() ==>
            && after.versions[version].slots == before.versions[version].slots
            && RowsOfVersion(after.results, version) <= RowsOfVersion(before.results, version))
  {
    var w := Run(Start(t0), steps);
    Reachable(t0, steps);
    hide Inv;
    RunEvolves(w, more);
  }

  // ---- slot ledger --------------------------------------------------------------------------

  /** The counter of a version is the number of its ledger rows; their slots are 1..counter, each once; the
      counter stays within the hard limit and the soft limit is reported exactly from there on. */
  lemma LedgerMatchesCounter(t0: Epoch, steps: seq<Step>, version: Label)
    requires version in Run(Start(t0), steps).db.versions
    ensures var db := Run(Start(t0), steps).db;
      var n := db.versions[version].slots;
      && n == |NoncesOf(db.ledger, version)| && n <= HARD_SLOT_LIMIT
      && (forall slot :: HasSlot(db.ledger, version, slot) <==> 1 <= slot <= n)
      && SlotsOnce(db.ledger, version)
      && (db.versions[version].softReported.Some? <==> n >= SOFT_SLOT_LIMIT)
  {
    var w := Run(Start(t0), steps);
    Reachable(t0, steps);
    hide CallersOk;
    hide HistoryOk;
    hide ResultsOk;
    hide Run;
    assert LifecycleOk(w.db.versions[version], w.clock);
    assert SlotsExact(w.db.ledger, version, w.db.versions[version].slots);
  }

  lemma DisableCloses(db: Db, version: Label, reason: Reason, now: Epoch)
    requires Seen(db, version, now)
    ensures var after := WriteDisable(db, version, reason, now);
      && version in after.versions && !after.versions[version].Writable()
      && after.versions[version].slots == db.versions[version].slots
      && after.ledger == db.ledger && after.results == db.results
      && (db.versions[version].Writable() ==>
            after.versions[version].writeDisabled == Some(now) && after.versions[version].reason == Some(reason))
  {
  }

  /** A reservation stopped by the hard limit or a collision leaves every table as it was, and the step that
      follows leaves the version closed to writes with its counter untouched. */
  lemma RefusalDisablesTheVersion(t0: Epoch, steps: seq<Step>, c: nat)
    requires Run(Start(t0), steps).PcOf(c).Disabling?
    ensures var w := Run(Start(t0), steps);
      var after := Next(w, DisableAfterRefusal(c)).db;
      var (version, reason, now) := (w.PcOf(c).version, w.PcOf(c).reason, w.PcOf(c).now);
      && version in w.db.versions && version in after.versions && !after.versions[version].Writable()
      && after.versions[version].slots == w.db.versions[version].slots
      && after.ledger == w.db.ledger && after.results == w.db.results
      && (w.db.versions[version].Writable() ==>
            after.versions[version].writeDisabled == Some(now) && after.versions[version].reason == Some(reason))
  {
    var w := Run(Start(t0), steps);
    Reachable(t0, steps);
    PositionOk(w, c);
    hide Inv;
    hide Run;
    hide WriteDisable;
    DisableCloses(w.db, w.PcOf(c).version, w.PcOf(c).reason, w.PcOf(c).now);
  }

  /** The ledger cannot take this nonce: it is there already, or the row fails the table's own checks. */
  predicate NonceRefused(db: Db, version: Label, nonce: Bytes, owner: Owner, now: Epoch) {
    NonceId(version, nonce) in db.ledger || !ValidOwner(owner) || now < 0
  }

  /** What stops a reservation of a writable version for good: the counter at the hard limit, or else a nonce from
      the source that the ledger refuses. */
  predicate Exhausted(db: Db, version: Label, nonce: Option<Bytes>, owner: Owner, now: Epoch)
    requires version in db.versions
  {
    || db.versions[version].slots == HARD_SLOT_LIMIT
    || (nonce.Some? && |nonce.value| == NONCE_BYTES && NonceRefused(db, version, nonce.value, owner, now))
  }

  lemma NextSlotIsFree(db: Db, id: NonceId, owner: Owner, now: Epoch)
    requires id.version in db.versions && SlotsExact(db.ledger, id.version, db.versions[id.version].slots)
    ensures LedgerAccepts(db, id, db.versions[id.version].slots + 1, owner, now) <==>
      !NonceRefused(db, id.version, id.nonce, owner, now)
  {
    hide SlotsCovered;
    hide SlotsOnce;
    hide ValidOwner;
  }

  lemma ReserveStops(db: Db, kr: Keyring, inv: Invocation, now: Epoch, nonce: Option<Bytes>)
    requires kr.active in db.versions && db.versions[kr.active].slots <= HARD_SLOT_LIMIT
    requires db.versions[kr.active].firstSeen <= now
    requires SlotsExact(db.ledger, kr.active, db.versions[kr.active].slots)
    ensures var (after, outcome) := Reserve(db, Some(kr), inv, now, nonce); var row := db.versions[kr.active];
      && (outcome.DisableNeeded? <==> row.Writable() && Exhausted(db, kr.active, nonce, inv.ReservationOwner(), now))
      && (outcome.DisableNeeded? ==>
            && after == db && outcome.version == kr.active
            && outcome.reason == (if row.slots == HARD_SLOT_LIMIT then HardLimit else NonceCollision))
  {
    hide SlotsExact;
    hide ValidOwner;
    hide LedgerAccepts;
    hide NonceRefused;
    if nonce.Some? { NextSlotIsFree(db, NonceId(kr.active, nonce.value), inv.ReservationOwner(), now); }
  }

  /** In every run, a reservation goes on to disable its version if and only if the version is writable and
      exhausted. It leaves all tables as they were, and the step that follows closes this version, with the epoch
      of the request and the reason found, and changes nothing else. */
  lemma ExhaustionDisablesTheVersion(t0: Epoch, steps: seq<Step>, c: nat, nonce: Option<Bytes>)
    requires Run(Start(t0), steps).PcOf(c).Reserving?
    ensures var w := Run(Start(t0), steps);
      w.PcOf(c).keyring.None? ==> Next(w, ReserveNonce(c, nonce)) == w.Go(c, Idle)
    ensures var w := Run(Start(t0), steps); var pc := w.PcOf(c);
      pc.keyring.Some? ==>
      var (version, refused) := (pc.keyring.value.active, Next(w, ReserveNonce(c, nonce)));
      && version in w.db.versions
      && var row := w.db.versions[version];
      && (refused.PcOf(c).Disabling? <==>
            row.Writable() && Exhausted(w.db, version, nonce, pc.inv.ReservationOwner(), pc.now))
      && (refused.PcOf(c).Disabling? ==>
            && refused.db == w.db
            && var why := if row.slots == HARD_SLOT_LIMIT then HardLimit else NonceCollision;
            && Next(refused, DisableAfterRefusal(c)).db == w.db.(versions :=
                 w.db.versions[version := row.(writeDisabled := Some(pc.now), reason := Some(why))]))
  {
    hide Inv;
    hide Run;
    hide Reserve;
    hide SlotsExact;
    hide Exhausted;
    var w := Run(Start(t0), steps);
    Reachable(t0, steps);
    if w.PcOf(c).keyring.Some? {
      ReservingFacts(w, c);
      ReserveStops(w.db, w.PcOf(c).keyring.value, w.PcOf(c).inv, w.PcOf(c).now, nonce);
    } else {
      NothingToReserve(w.db, w.PcOf(c).inv, w.PcOf(c).now, nonce);
    }
  }

  lemma NothingToReserve(db: Db, inv: Invocation, now: Epoch, nonce: Option<Bytes>)
    ensures Reserve(db, None, inv, now, nonce) == (db, Refused)
  {
  }

  lemma ReservingFacts(w: World, c: nat)
    requires Inv(w) && w.PcOf(c).Reserving? && w.PcOf(c).keyring.Some?
    ensures var pc := w.PcOf(c); var version := pc.keyring.value.active;
      && version in w.db.versions && w.db.versions[version].firstSeen <= pc.now
      && w.db.versions[version].slots <= HARD_SLOT_LIMIT
      && SlotsExact(w.db.ledger, version, w.db.versions[version].slots)
  {
    hide HistoryOk;
    hide ResultsOk;
    hide SlotsExact;
    PositionOk(w, c);
    var kr := w.PcOf(c).keyring.value;
    var i :| 0 <= i < |kr.keys| && kr.keys[i].version == kr.active;
    assert Seen(w.db, kr.keys[i].version, w.PcOf(c).now);
    assert LifecycleOk(w.db.versions[kr.active], w.clock);
  }

  // ---- readiness ----------------------------------------------------------------------------

  datatype KeyVersionState = KeyVersionState(writeDisabled: bool, retired: bool, slots: int, nonces: int)

  /** The registry as the exact-count readiness query reads it. */
  function States(db: Db): map<Label, KeyVersionState> {
    map v | v in db.versions ::
      KeyVersionState(db.versions[v].writeDisabled.Some?, db.versions[v].retired.Some?,
                      db.versions[v].slots, |NoncesOf(db.ledger, v)|)
  }

  predicate CountsExact(states: map<Label, KeyVersionState>) {
    forall v | v in states :: states[v].slots == states[v].nonces && 0 <= states[v].slots <= HARD_SLOT_LIMIT
  }

  function Configured(kr: Option<Keyring>): set<Label> {
    if kr.None? then {} else set k | k in kr.value.keys :: k.version
  }

  predicate IdempotencyReadiness(configured: set<Label>, required: set<Label>, active: Option<Label>,
                                 states: map<Label, KeyVersionState>)
  {
    && required <= configured
    && CountsExact(states)
    && if configured == {} then required == {} && active.None?
       else
         && active.Some? && active.value in configured
         && (states != map[] ==> active.value in states)
         && (forall v | v in required && v in states :: !states[v].retired)
         && (active.value in states ==> !states[active.value].retired && !states[active.value].writeDisabled)
  }

  /** validate_startup_compatibility: labels and commitments agree with the registry, all results are readable. */
  predicate Compatible(db: Db, kr: Option<Keyring>, required: set<Label>) {
    if kr.None? then required == {}
    else
      && required <= Configured(kr)
      && (forall v, k | v in db.versions && k in kr.value.keys ::
            v == k.version <==> db.versions[v].commitment == Commitment(k.material))
  }

  function RequiredVersions(rows: seq<ResultRow>): set<Label> { set r | r in rows :: r.version }

  /** sqlite_idempotency_ready; None when the compatibility check raises. */
  function StoreReady(db: Db, kr: Option<Keyring>): Option<bool> {
    var required := RequiredVersions(db.results);
    if !Compatible(db, kr, required) then None
    else Some(IdempotencyReadiness(Configured(kr), required,
                                   if kr.None? then None else Some(kr.value.active), States(db)))
  }

  lemma CountsAgree(db: Db, clock: Epoch)
    requires TablesOk(db, clock)
    ensures CountsExact(States(db))
  {
    hide ResultsOk;
    forall v | v in db.versions ensures db.versions[v].slots == |NoncesOf(db.ledger, v)| <= HARD_SLOT_LIMIT {
      assert LifecycleOk(db.versions[v], clock) && SlotsExact(db.ledger, v, db.versions[v].slots);
    }
  }

  lemma RequiredNotRetired(db: Db, clock: Epoch)
    requires TablesOk(db, clock)
    ensures forall v | v in RequiredVersions(db.results) :: v in db.versions && db.versions[v].retired.None?
  {
    hide VersionsOk;
    hide LedgerOk;
    forall v | v in RequiredVersions(db.results) ensures v in db.versions && db.versions[v].retired.None? {
      var r :| r in db.results && r.version == v;
      assert RowOk(r, db, clock);
    }
  }

  lemma ReadinessOfTables(db: Db, kr: Option<Keyring>, clock: Epoch)
    requires TablesOk(db, clock) && Ready(db, kr)
    ensures StoreReady(db, kr) ==
              if !(RequiredVersions(db.results) <= Configured(kr)) then None
              else Some(kr.None? || (kr.value.active in db.versions && db.versions[kr.value.active].Writable()))
  {
    CountsAgree(db, clock);
    RequiredNotRetired(db, clock);
    assert VersionsOk(db, clock);
    hide TablesOk;
    hide VersionsOk;
    hide CountsExact;
    hide RequiredVersions;
    hide ValidKeyring;
    hide LabelHeld;
    if kr.Some? { RegisteredIsCompatible(db, kr.value, clock); }
  }

  /** In every reachable state the counts agree, so a registered process is ready exactly when it can read
      every stored result and its active version accepts writes. */
  lemma ReadyExactlyWhenWritable(t0: Epoch, steps: seq<Step>, kr: Option<Keyring>)
    requires Ready(Run(Start(t0), steps).db, kr)
    ensures var db := Run(Start(t0), steps).db;
      && CountsExact(States(db))
      && StoreReady(db, kr) ==
           if !(RequiredVersions(db.results) <= Configured(kr)) then None
           else Some(kr.None? || (kr.value.active in db.versions && db.versions[kr.value.active].Writable()))
  {
    var w := Run(Start(t0), steps);
    Reachable(t0, steps);
    hide TablesOk;
    hide CallersOk;
    hide HistoryOk;
    hide Run;
    hide Ready;
    hide CountsExact;
    hide StoreReady;
    hide RequiredVersions;
    CountsAgree(w.db, w.clock);
    ReadinessOfTables(w.db, kr, w.clock);
  }

  lemma RegisteredIsCompatible(db: Db, kr: Keyring, clock: Epoch)
    requires VersionsOk(db, clock) && Registered(db, kr)
    ensures forall v, k | v in db.versions && k in kr.keys ::
              v == k.version <==> db.versions[v].commitment == Commitment(k.material)
    ensures kr.active in db.versions && kr.active in Configured(Some(kr))
  {
    forall k | k in kr.keys ensures LabelHeld(db, k) {}
    var i :| 0 <= i < |kr.keys| && kr.keys[i].version == kr.active;
    assert kr.keys[i] in kr.keys;
  }

  /** A stored result the keyring has no key for. */
  predicate KeyMissing(db: Db, kr: Option<Keyring>) {
    exists r | r in db.results :: kr.None? || forall k | k in kr.value.keys :: k.version != r.version
  }

  /** One label for two materials, or one material under two labels. */
  predicate Clashes(db: Db, kr: Keyring) {
    exists v, k | v in db.versions && k in kr.keys ::
      (v == k.version) != (db.versions[v].commitment.material == k.material)
  }

  lemma ReadableIsConfigured(db: Db, kr: Option<Keyring>)
    ensures RequiredVersions(db.results) <= Configured(kr) <==> !KeyMissing(db, kr)
    ensures kr.None? ==> (RequiredVersions(db.results) == {} <==> !KeyMissing(db, kr))
  {
    forall r | r in db.results ensures r.version in RequiredVersions(db.results) { }
  }

  /** In every reachable state, for any loaded keyring, registered or not: readiness cannot be told exactly when a
      result is unreadable or the keyring clashes with the registry, and else is given exactly without a keyring, over
      an empty registry, or when the active version accepts writes. */
  lemma ReadinessExactly(t0: Epoch, steps: seq<Step>, kr: Option<Keyring>)
    requires kr.Some? ==> ValidKeyring(kr.value)
    ensures var db := Run(Start(t0), steps).db;
      && (StoreReady(db, kr).None? <==> KeyMissing(db, kr) || (kr.Some? && Clashes(db, kr.value)))
      && (StoreReady(db, kr).Some? ==>
            (StoreReady(db, kr).value <==>
              || kr.None? || db.versions == map[]
              || (&& kr.value.active in db.versions && db.versions[kr.value.active].writeDisabled.None?
                  && db.versions[kr.value.active].retired.None?)))
  {
    hide Run;
    hide StoreReady;
    hide KeyMissing;
    hide Clashes;
    var w := Run(Start(t0), steps);
    Reachable(t0, steps);
    ReadinessTold(w.db, kr);
    if StoreReady(w.db, kr).Some? { ReadinessOf(w.db, kr, w.clock); }
  }

  lemma StatesFacts(db: Db)
    ensures (forall v :: v in States(db) <==> v in db.versions) && (States(db) == map[] <==> db.versions == map[])
    ensures forall v | v in db.versions ::
      && v in States(db) && States(db)[v].retired == db.versions[v].retired.Some?
      && States(db)[v].writeDisabled == db.versions[v].writeDisabled.Some?
  {
    if States(db) == map[] { assert db.versions.Keys == States(db).Keys; }
  }

  lemma ReadinessTold(db: Db, kr: Option<Keyring>)
    requires kr.Some? ==> ValidKeyring(kr.value)
    ensures StoreReady(db, kr).None? <==> KeyMissing(db, kr) || (kr.Some? && Clashes(db, kr.value))
  {
    ReadableIsConfigured(db, kr);
    hide RequiredVersions;
    hide KeyMissing;
    hide IdempotencyReadiness;
    hide States;
  }

  lemma ReadinessOf(db: Db, kr: Option<Keyring>, clock: Epoch)
    requires TablesOk(db, clock) && (kr.Some? ==> ValidKeyring(kr.value)) && StoreReady(db, kr).Some?
    ensures StoreReady(db, kr).value <==>
      kr.None? || db.versions == map[] || (kr.value.active in db.versions && db.versions[kr.value.active].Writable())
  {
    CountsAgree(db, clock);
    RequiredNotRetired(db, clock);
    StatesFacts(db);
    hide States;
    hide TablesOk;
    hide CountsExact;
    hide RequiredVersions;
    if kr.Some? {
      var i :| 0 <= i < |kr.value.keys| && kr.value.keys[i].version == kr.value.active;
      assert kr.value.keys[i] in kr.value.keys && kr.value.active in Configured(kr);
      assert StoreReady(db, kr).value <==>
        && (States(db) != map[] ==> kr.value.active in States(db))
        && (kr.value.active in States(db) ==>
              !States(db)[kr.value.active].retired && !States(db)[kr.value.active].writeDisabled);
    }
  }
}
