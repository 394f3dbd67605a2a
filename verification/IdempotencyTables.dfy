/** What every transaction keeps about the three tables: the slot ledger, the key lifecycle, and the
    life time of stored results. */
module IdempotencyTables {
  import opened Common
  import opened IdempotencyModel
  import opened IdempotencyTransactions

  // ---- the invariants -----------------------------------------------------------------------

  /** Barriers in order: disabled, then drained, then retired after the removal window; the soft-limit
      report is present exactly from the soft limit on. */
  predicate LifecycleOk(row: VersionRow, clock: Epoch) {
    && row.slots <= HARD_SLOT_LIMIT && row.firstSeen <= clock && |row.commitment.material| == 32
    && (row.softReported.Some? <==> row.slots >= SOFT_SLOT_LIMIT)
    && (row.writeDisabled.Some? <==> row.reason.Some?)
    && (row.writeDisabled.Some? ==> row.writeDisabled.value <= clock)
    && (row.drained.Some? ==> row.writeDisabled.Some? && row.writeDisabled.value <= row.drained.value <= clock)
    && (row.retired.Some? ==>
          row.drained.Some? && row.drained.value + REMOVAL_WINDOW_SECONDS <= row.retired.value <= clock)
  }

  /** Labels and key material determine each other. */
  predicate VersionsOk(db: Db, clock: Epoch) {
    && (forall v | v in db.versions :: LifecycleOk(db.versions[v], clock))
    && (forall v, u | v in db.versions && u in db.versions
                      && db.versions[v].commitment == db.versions[u].commitment :: v == u)
  }

  function NoncesOf(ledger: map<NonceId, NonceRow>, version: Label): set<NonceId> {
    set id | id in ledger && id.version == version
  }

  predicate HasSlot(ledger: map<NonceId, NonceRow>, version: Label, slot: int) {
    exists id | id in ledger :: id.version == version && ledger[id].slot == slot
  }

  predicate SlotsOnce(ledger: map<NonceId, NonceRow>, version: Label) {
    forall a, b | a in ledger && b in ledger && a.version == version && b.version == version
                  && ledger[a].slot == ledger[b].slot :: a == b
  }

  predicate SlotsWithin(ledger: map<NonceId, NonceRow>, version: Label, n: nat) {
    forall id | id in ledger && id.version == version :: 1 <= ledger[id].slot <= n
  }

  predicate SlotsCovered(ledger: map<NonceId, NonceRow>, version: Label, n: nat) {
    forall slot | 1 <= slot <= n :: HasSlot(ledger, version, slot)
  }

  /** The rows of a version carry exactly the slots 1..n, once each, where n is its counter. */
  predicate SlotsExact(ledger: map<NonceId, NonceRow>, version: Label, n: nat) {
    && |NoncesOf(ledger, version)| == n
    && SlotsWithin(ledger, version, n) && SlotsOnce(ledger, version) && SlotsCovered(ledger, version, n)
  }

  predicate LedgerOk(db: Db, clock: Epoch) {
    && (forall id | id in db.ledger :: id.version in db.versions && db.ledger[id].reservedAt <= clock)
    && (forall v | v in db.versions :: SlotsExact(db.ledger, v, db.versions[v].slots))
  }

  /** A stored result was written by a claimed nonce of a version not yet retired, no later than its drain,
      and lives at most one terminal TTL. */
  predicate RowOk(row: ResultRow, db: Db, clock: Epoch) {
    && row.version in db.versions && db.versions[row.version].retired.None?
    && NonceId(row.version, row.nonce) in db.ledger && db.ledger[NonceId(row.version, row.nonce)].claimedAt.Some?
    && row.created <= clock && row.created < row.expires <= row.created + MAX_TERMINAL_TTL_SECONDS
    && (db.versions[row.version].drained.Some? ==> row.created <= db.versions[row.version].drained.value)
  }

  predicate ResultsOk(db: Db, clock: Epoch) {
    UniqueResultIds(db.results) && forall row | row in db.results :: RowOk(row, db, clock)
  }

  predicate TablesOk(db: Db, clock: Epoch) {
    VersionsOk(db, clock) && LedgerOk(db, clock) && ResultsOk(db, clock)
  }

  // ---- what a transaction may change --------------------------------------------------------

  predicate OnceSet(before: Option<Epoch>, after: Option<Epoch>) { before.Some? ==> after == before }

  /** Each lifecycle epoch is written at most once, counters only grow, commitments never change. */
  predicate VersionEvolves(before: VersionRow, after: VersionRow) {
    && after.commitment == before.commitment && after.firstSeen == before.firstSeen && before.slots <= after.slots
    && OnceSet(before.softReported, after.softReported) && OnceSet(before.writeDisabled, after.writeDisabled)
    && (before.reason.Some? ==> after.reason == before.reason)
    && OnceSet(before.drained, after.drained) && OnceSet(before.retired, after.retired)
  }

  /** A ledger row is permanent; only its claim is ever added, once. */
  predicate NonceEvolves(before: NonceRow, after: NonceRow) {
    after.(claimedAt := before.claimedAt) == before && OnceSet(before.claimedAt, after.claimedAt)
  }

  predicate Evolves(before: Db, after: Db) {
    && (forall v | v in before.versions :: v in after.versions && VersionEvolves(before.versions[v], after.versions[v]))
    && (forall id | id in before.ledger :: id in after.ledger && NonceEvolves(before.ledger[id], after.ledger[id]))
    // A version that does not accept writes gets no new results and no new slots.
    && (forall row | row in after.results && row !in before.results ::
          row.version in before.versions ==> before.versions[row.version].Writable())
    && (forall v | v in before.versions && !before.versions[v].Writable() ::
          after.versions[v].slots == before.versions[v].slots)
  }

  lemma EvolvesTransitive(a: Db, b: Db, c: Db)
    requires Evolves(a, b) && Evolves(b, c)
    ensures Evolves(a, c)
  {
    forall row | row in c.results && row !in a.results && row.version in a.versions
      ensures a.versions[row.version].Writable()
    {
      assert VersionEvolves(a.versions[row.version], b.versions[row.version]);
    }
  }

  /** Time alone breaks nothing. */
  lemma TablesOkLater(db: Db, clock: Epoch, later: Epoch)
    requires TablesOk(db, clock) && clock <= later
    ensures TablesOk(db, later)
  {
    hide SlotsExact;
    forall row | row in db.results ensures RowOk(row, db, later) { assert RowOk(row, db, clock); }
    forall v | v in db.versions ensures LifecycleOk(db.versions[v], later) {
      assert LifecycleOk(db.versions[v], clock);
    }
  }

  // ---- transactions -------------------------------------------------------------------------

  lemma NoSlotsYet(ledger: map<NonceId, NonceRow>, version: Label)
    requires forall id | id in ledger :: id.version != version
    ensures SlotsExact(ledger, version, 0)
  {
    assert NoncesOf(ledger, version) == {};
  }

  function WithVersion(db: Db, version: Label, row: VersionRow): Db {
    db.(versions := db.versions[version := row])
  }

  /** Replacing or adding one version row; what the row must satisfy is left to the caller. */
  lemma VersionWriteKeeps(db: Db, version: Label, row: VersionRow, clock: Epoch)
    requires TablesOk(db, clock) && LifecycleOk(row, clock)
    requires forall v | v in db.versions && v != version :: db.versions[v].commitment != row.commitment
    requires SlotsExact(db.ledger, version, row.slots)
    requires forall r | r in db.results && r.version == version ::
               row.retired.None? && (row.drained.Some? ==> r.created <= row.drained.value)
    ensures TablesOk(WithVersion(db, version, row), clock)
  {
    hide SlotsExact;
    hide LifecycleOk;
    var after := WithVersion(db, version, row);
    assert VersionsOk(after, clock);
    assert LedgerOk(after, clock);
    assert ResultsOk(after, clock) by {
      forall r | r in after.results ensures RowOk(r, after, clock) { assert RowOk(r, db, clock); }
    }
  }

  lemma VersionWriteEvolves(db: Db, version: Label, row: VersionRow)
    requires version in db.versions ==> VersionEvolves(db.versions[version], row)
    requires version in db.versions && !db.versions[version].Writable() ==> row.slots == db.versions[version].slots
    ensures Evolves(db, WithVersion(db, version, row))
  {
  }

  lemma RegisterOneKeeps(db: Db, key: KeyVersion, clock: Epoch)
    requires TablesOk(db, clock) && LabelFree(db, key) && |key.material| == 32
    ensures var after := WithVersion(db, key.version, FreshVersion(key, clock));
            TablesOk(after, clock) && Evolves(db, after) && LabelHeld(after, key)
  {
    NoSlotsYet(db.ledger, key.version);
    hide SlotsExact;
    forall r | r in db.results ensures r.version != key.version { assert RowOk(r, db, clock); }
    VersionWriteKeeps(db, key.version, FreshVersion(key, clock), clock);
    VersionWriteEvolves(db, key.version, FreshVersion(key, clock));
  }

  lemma LabelStaysHeld(before: Db, after: Db, key: KeyVersion)
    requires Evolves(before, after) && LabelHeld(before, key)
    ensures LabelHeld(after, key)
  {
    assert VersionEvolves(before.versions[key.version], after.versions[key.version]);
  }

  lemma EvolvesSame(db: Db)
    ensures Evolves(db, db)
  {
  }

  lemma {:induction false} RegisterKeeps(db: Db, keys: seq<KeyVersion>, clock: Epoch)
    requires TablesOk(db, clock) && (forall k | k in keys :: |k.material| == 32)
    requires RegisterKeys(db, keys, clock).Ok?
    ensures var after := RegisterKeys(db, keys, clock).value;
            && TablesOk(after, clock) && Evolves(db, after)
            && after.ledger == db.ledger && after.results == db.results
            && (forall k | k in keys :: LabelHeld(after, k))
    decreases |keys|
  {
    hide TablesOk;
    hide Evolves;
    hide LabelHeld;
    hide LabelFree;
    if keys == [] {
      EvolvesSame(db);
    } else {
      var next := if LabelHeld(db, keys[0]) then db
                  else WithVersion(db, keys[0].version, FreshVersion(keys[0], clock));
      if LabelHeld(db, keys[0]) { EvolvesSame(db); } else { RegisterOneKeeps(db, keys[0], clock); }
      RegisterKeeps(next, keys[1..], clock);
      var after := RegisterKeys(db, keys, clock).value;
      EvolvesTransitive(db, next, after);
      LabelStaysHeld(next, after, keys[0]);
      forall k | k in keys ensures LabelHeld(after, k) { assert k == keys[0] || k in keys[1..]; }
    }
  }

  lemma HasSlotCarries(before: map<NonceId, NonceRow>, after: map<NonceId, NonceRow>, version: Label, slot: int)
    requires HasSlot(before, version, slot)
    requires forall id | id in before && id.version == version :: id in after && after[id].slot == before[id].slot
    ensures HasSlot(after, version, slot)
  {
    var k :| k in before && k.version == version && before[k].slot == slot;
    assert after[k].slot == slot;
  }

  lemma HasSlotOf(ledger: map<NonceId, NonceRow>, id: NonceId)
    requires id in ledger
    ensures HasSlot(ledger, id.version, ledger[id].slot)
  {
  }

  lemma SlotsOnceAdded(ledger: map<NonceId, NonceRow>, id: NonceId, row: NonceRow, n: nat)
    requires SlotsWithin(ledger, id.version, n) && SlotsOnce(ledger, id.version) && id !in ledger && row.slot == n + 1
    ensures SlotsOnce(ledger[id := row], id.version)
  {
    var after := ledger[id := row];
    forall a, b | a in after && b in after && a.version == id.version && b.version == id.version
                  && after[a].slot == after[b].slot
      ensures a == b
    {
      if a != id { assert after[a].slot <= n; }
      if b != id { assert after[b].slot <= n; }
    }
  }

  lemma SlotAdded(ledger: map<NonceId, NonceRow>, id: NonceId, row: NonceRow, n: nat)
    requires SlotsExact(ledger, id.version, n) && id !in ledger && row.slot == n + 1
    ensures SlotsExact(ledger[id := row], id.version, n + 1)
  {
    hide HasSlot;
    var after := ledger[id := row];
    assert |NoncesOf(after, id.version)| == n + 1 && SlotsWithin(after, id.version, n + 1) by {
      hide SlotsOnce;
      hide SlotsCovered;
      assert NoncesOf(after, id.version) == NoncesOf(ledger, id.version) + {id};
    }
    SlotsOnceAdded(ledger, id, row, n);
    hide SlotsOnce;
    hide SlotsWithin;
    hide NoncesOf;
    forall slot | 1 <= slot <= n + 1 ensures HasSlot(after, id.version, slot) {
      if slot <= n { HasSlotCarries(ledger, after, id.version, slot); } else { HasSlotOf(after, id); }
    }
  }

  /** Rows of other versions do not matter, and neither do claims. */
  lemma SlotsUntouched(before: map<NonceId, NonceRow>, after: map<NonceId, NonceRow>, version: Label, n: nat)
    requires SlotsExact(before, version, n)
    requires NoncesOf(after, version) == NoncesOf(before, version)
    requires forall id | id in before && id.version == version :: id in after && after[id].slot == before[id].slot
    ensures SlotsExact(after, version, n)
  {
    hide HasSlot;
    forall id | id in after && id.version == version ensures id in before { assert id in NoncesOf(after, version); }
    forall slot | 1 <= slot <= n ensures HasSlot(after, version, slot) {
      HasSlotCarries(before, after, version, slot);
    }
  }

  lemma SlotsAfterInsert(ledger: map<NonceId, NonceRow>, id: NonceId, row: NonceRow, version: Label, n: nat)
    requires SlotsExact(ledger, version, n) && id !in ledger && (version == id.version ==> row.slot == n + 1)
    ensures SlotsExact(ledger[id := row], version, if version == id.version then n + 1 else n)
  {
    hide SlotsExact;
    if version == id.version {
      SlotAdded(ledger, id, row, n);
    } else {
      assert NoncesOf(ledger[id := row], version) == NoncesOf(ledger, version);
      SlotsUntouched(ledger, ledger[id := row], version, n);
    }
  }

  /** A new ledger row, numbered next by the version row written with it. */
  lemma LedgerInsertKeeps(db: Db, id: NonceId, nonceRow: NonceRow, row: VersionRow, clock: Epoch)
    requires TablesOk(db, clock) && id.version in db.versions && id !in db.ledger && nonceRow.reservedAt <= clock
    requires LifecycleOk(row, clock) && VersionEvolves(db.versions[id.version], row)
    requires row.slots == db.versions[id.version].slots + 1 && nonceRow.slot == row.slots
    requires row.drained == db.versions[id.version].drained && row.retired == db.versions[id.version].retired
    ensures TablesOk(Db(db.versions[id.version := row], db.ledger[id := nonceRow], db.results), clock)
  {
    hide SlotsExact;
    hide LifecycleOk;
    var after := Db(db.versions[id.version := row], db.ledger[id := nonceRow], db.results);
    assert VersionsOk(after, clock);
    assert LedgerOk(after, clock) by {
      forall v | v in after.versions ensures SlotsExact(after.ledger, v, after.versions[v].slots) {
        SlotsAfterInsert(db.ledger, id, nonceRow, v, db.versions[v].slots);
      }
    }
    assert ResultsOk(after, clock) by {
      forall r | r in after.results ensures RowOk(r, after, clock) { assert RowOk(r, db, clock); }
    }
  }

  lemma ReserveEvolves(db: Db, kr: Option<Keyring>, inv: Invocation, now: Epoch, nonce: Option<Bytes>)
    ensures var (after, outcome) := Reserve(db, kr, inv, now, nonce);
            && Evolves(db, after) && after.results == db.results && (!outcome.Reserved? ==> after == db)
            && (outcome.Reserved? ==>
                  && LedgerHolds(after, inv.ReservationOwner(), outcome.reservation)
                  && NonceId(outcome.reservation.version, outcome.reservation.nonce) !in db.ledger)
  {
  }

  lemma ReserveKeeps(db: Db, kr: Option<Keyring>, inv: Invocation, now: Epoch, nonce: Option<Bytes>, clock: Epoch)
    requires TablesOk(db, clock) && now <= clock
    ensures TablesOk(Reserve(db, kr, inv, now, nonce).0, clock)
  {
    hide LedgerOk;
    hide ResultsOk;
    hide ValidOwner;
    var (after, outcome) := Reserve(db, kr, inv, now, nonce);
    if outcome.Reserved? {
      var version := outcome.reservation.version;
      assert LifecycleOk(db.versions[version], clock);
      hide TablesOk;
      LedgerInsertKeeps(db, NonceId(version, outcome.reservation.nonce),
                        after.ledger[NonceId(version, outcome.reservation.nonce)], after.versions[version], clock);
    }
  }

  /** A change of lifecycle epochs alone, on one version, within the barriers. */
  lemma EpochsKeep(db: Db, version: Label, row: VersionRow, clock: Epoch)
    requires TablesOk(db, clock) && version in db.versions
    requires VersionEvolves(db.versions[version], row) && LifecycleOk(row, clock)
    requires row.slots == db.versions[version].slots
    requires row.retired == db.versions[version].retired || (forall r | r in db.results :: r.version != version)
    requires row.drained == db.versions[version].drained || row.drained == Some(clock)
    ensures TablesOk(WithVersion(db, version, row), clock) && Evolves(db, WithVersion(db, version, row))
  {
    hide SlotsExact;
    hide LifecycleOk;
    forall r | r in db.results && r.version == version
      ensures row.retired.None? && (row.drained.Some? ==> r.created <= row.drained.value)
    {
      assert RowOk(r, db, clock);
    }
    VersionWriteKeeps(db, version, row, clock);
    VersionWriteEvolves(db, version, row);
  }

  lemma WriteDisableKeeps(db: Db, version: Label, reason: Reason, now: Epoch, clock: Epoch)
    requires TablesOk(db, clock) && now <= clock
    ensures var after := WriteDisable(db, version, reason, now);
            TablesOk(after, clock) && Evolves(db, after) && after.results == db.results && after.ledger == db.ledger
  {
    EvolvesSame(db);
    if WriteDisable(db, version, reason, now) != db {
      assert LifecycleOk(db.versions[version], clock);
      hide TablesOk;
      hide Evolves;
      EpochsKeep(db, version, db.versions[version].(writeDisabled := Some(now), reason := Some(reason)), clock);
    }
  }

  lemma DrainKeeps(db: Db, version: Label, clock: Epoch)
    requires TablesOk(db, clock)
    ensures var after := CompleteDrain(db, version, clock);
            TablesOk(after, clock) && Evolves(db, after) && after.results == db.results && after.ledger == db.ledger
  {
    EvolvesSame(db);
    if CompleteDrain(db, version, clock) != db {
      assert LifecycleOk(db.versions[version], clock);
      hide TablesOk;
      hide Evolves;
      EpochsKeep(db, version, db.versions[version].(drained := Some(clock)), clock);
    }
  }

  /** Deleting results keeps everything. */
  lemma DeletionKeeps(db: Db, rows: seq<ResultRow>, clock: Epoch)
    requires TablesOk(db, clock) && UniqueResultIds(rows) && (forall r | r in rows :: r in db.results)
    ensures TablesOk(db.(results := rows), clock) && Evolves(db, db.(results := rows))
  {
    DeletionEvolves(db, rows);
    hide SlotsExact;
    hide LifecycleOk;
    hide Evolves;
    var after := db.(results := rows);
    forall r | r in after.results ensures RowOk(r, after, clock) { assert RowOk(r, db, clock); }
  }

  lemma DeletionEvolves(db: Db, rows: seq<ResultRow>)
    requires forall r | r in rows :: r in db.results
    ensures Evolves(db, db.(results := rows))
  {
  }

  lemma GcKeeps(db: Db, kr: Option<Keyring>, limit: int, clock: Epoch)
    requires TablesOk(db, clock)
    ensures var after := CollectGarbage(db, kr, limit, clock).0;
            && TablesOk(after, clock) && Evolves(db, after) && after.ledger == db.ledger
            && after.versions == db.versions
            && (forall r | r in db.results && r.expires > clock :: r in after.results)
            && (forall r | r in after.results :: r in db.results)
  {
    hide SlotsExact;
    hide Authentic;
    DeletionKeeps(db, Except(db.results, RowSet(ExpiredBatch(db.results, clock, GcBudget(limit)))), clock);
  }

  lemma RetireKeeps(db: Db, version: Label, active: Label, kr: Option<Keyring>, clock: Epoch)
    requires TablesOk(db, clock) && RetireTransaction(db, version, active, kr, clock).Ok?
    ensures var after := RetireTransaction(db, version, active, kr, clock).value;
            && TablesOk(after, clock) && Evolves(db, after) && after.ledger == db.ledger
            && (forall r | r in db.results && r.expires > clock :: r in after.results)
            && (forall r | r in after.results :: r in db.results)
  {
    hide SlotsExact;
    hide Authentic;
    var cleared := db.(results := Except(db.results, RowsOfVersion(db.results, version)));
    var after := RetireTransaction(db, version, active, kr, clock).value;
    DeletionKeeps(db, cleared.results, clock);
    assert LifecycleOk(db.versions[version], clock);
    EpochsKeep(cleared, version, after.versions[version], clock);
    EvolvesTransitive(db, cleared, after);
  }

  function WithClaim(db: Db, id: NonceId, clock: Epoch): Db
    requires id in db.ledger
  {
    db.(ledger := db.ledger[id := db.ledger[id].(claimedAt := Some(clock))])
  }

  lemma ClaimIs(db: Db, inv: Invocation, res: Reservation, clock: Epoch)
    requires Claim(db, inv, res, clock).Ok?
    ensures var id := NonceId(res.version, res.nonce);
      && id in db.ledger && db.ledger[id].claimedAt.None?
      && Claim(db, inv, res, clock) == Ok(WithClaim(db, id, clock))
  {
  }

  lemma ClaimMarkKeeps(db: Db, id: NonceId, clock: Epoch)
    requires TablesOk(db, clock) && id in db.ledger && db.ledger[id].claimedAt.None?
    ensures TablesOk(WithClaim(db, id, clock), clock)
  {
    hide SlotsExact;
    hide LifecycleOk;
    var after := WithClaim(db, id, clock);
    forall v | v in after.versions ensures SlotsExact(after.ledger, v, after.versions[v].slots) {
      assert NoncesOf(after.ledger, v) == NoncesOf(db.ledger, v);
      SlotsUntouched(db.ledger, after.ledger, v, db.versions[v].slots);
    }
    forall row | row in after.results ensures RowOk(row, after, clock) { assert RowOk(row, db, clock); }
  }

  lemma ClaimMarkEvolves(db: Db, id: NonceId, clock: Epoch)
    requires id in db.ledger && db.ledger[id].claimedAt.None?
    ensures Evolves(db, WithClaim(db, id, clock))
  {
  }

  lemma ClaimKeeps(db: Db, inv: Invocation, res: Reservation, clock: Epoch)
    requires TablesOk(db, clock) && Claim(db, inv, res, clock).Ok?
    ensures var after := Claim(db, inv, res, clock).value;
            && TablesOk(after, clock) && Evolves(db, after) && after.results == db.results
            && after.versions == db.versions
  {
    hide TablesOk;
    hide Evolves;
    ClaimIs(db, inv, res, clock);
    hide Claim;
    ClaimMarkKeeps(db, NonceId(res.version, res.nonce), clock);
    ClaimMarkEvolves(db, NonceId(res.version, res.nonce), clock);
  }

  /** One result more, written by a claimed nonce of a writable version. */
  lemma ResultInsertKeeps(db: Db, rows: seq<ResultRow>, row: ResultRow, clock: Epoch)
    requires TablesOk(db, clock) && UniqueResultIds(rows)
    requires forall r | r in rows :: r == row || r in db.results
    requires RowOk(row, db, clock)
    requires db.versions[row.version].Writable()
    ensures TablesOk(db.(results := rows), clock) && Evolves(db, db.(results := rows))
  {
    hide SlotsExact;
    hide LifecycleOk;
    var after := db.(results := rows);
    forall r | r in after.results ensures RowOk(r, after, clock) {
      if r in db.results { assert RowOk(r, db, clock); }
    }
  }

  lemma CompleteKeeps(db: Db, kr: Option<Keyring>, inv: Invocation, res: Reservation, outcome: Option<Outcome>,
                      clock: Epoch)
    requires TablesOk(db, clock)
    ensures var t := Complete(db, kr, inv, res, outcome, clock);
            && TablesOk(t.db, clock) && Evolves(db, t.db)
            && (forall r | r in db.results && r.expires > clock :: r in t.db.results)
            && (forall r | r in t.db.results && r !in db.results :: t.commit.Some? && t.commit.value.stored == Some(r))
  {
    hide SlotsExact;
    hide Complete;
    hide SealedFor;
    var t := Complete(db, kr, inv, res, outcome, clock);
    CompletionIsFaithful(db, kr, inv, res, outcome, clock);
    if t.commit.Some? {
      var stored := t.commit.value.stored;
      forall r | r in t.db.results ensures r in db.results || stored == Some(r) {
        if r.id == inv.id { LoadFindsTheRow(t.db.results, r); }
      }
      if stored.Some? {
        assert LifecycleOk(db.versions[res.version], clock);
        ResultInsertKeeps(db, t.db.results, stored.value, clock);
      } else {
        DeletionKeeps(db, t.db.results, clock);
      }
    }
  }
}
