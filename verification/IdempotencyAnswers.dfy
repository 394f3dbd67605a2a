/** What a caller is told, and what is left behind, in terms of the stored rows alone: every lookup, reservation, claim,
    completion and whole call, case by case. */
module IdempotencyAnswers {
  import opened Common
  import opened ResponseCodec
  import opened IdempotencyModel
  import opened IdempotencyTransactions

  // ---- registration -------------------------------------------------------------------------

  predicate KeysApart(keys: seq<KeyVersion>) {
    forall i, j | 0 <= i < j < |keys| :: keys[i].version != keys[j].version && keys[i].material != keys[j].material
  }

  /** The registry has the key under its own label already, or neither its label nor its material. */
  predicate Fits(db: Db, key: KeyVersion) {
    || (key.version in db.versions && db.versions[key.version].commitment.material == key.material)
    || (key.version !in db.versions
        && forall v | v in db.versions :: db.versions[v].commitment.material != key.material)
  }

  function WithKey(db: Db, key: KeyVersion, now: Epoch): Db {
    db.(versions := db.versions[key.version := FreshVersion(key, now)])
  }

  lemma WithKeyFacts(db: Db, key: KeyVersion, now: Epoch)
    requires LabelFree(db, key)
    ensures Fits(db, key) && WithKey(db, key, now).ledger == db.ledger && WithKey(db, key, now).results == db.results
    ensures var after := WithKey(db, key, now);
      && after.versions.Keys == db.versions.Keys + {key.version}
      && (forall v | v in db.versions :: after.versions[v] == db.versions[v])
      && after.versions[key.version] == VersionRow(Commitment(key.material), 0, now, None, None, None, None, None)
  {
  }

  lemma FitsStill(db: Db, key: KeyVersion, k: KeyVersion, now: Epoch)
    requires LabelFree(db, key) && k.version != key.version && k.material != key.material
    ensures Fits(WithKey(db, key, now), k) <==> Fits(db, k)
  {
    var longer := WithKey(db, key, now);
    forall v | v in db.versions ensures v in longer.versions && longer.versions[v] == db.versions[v] { }
  }

  lemma HeldFits(db: Db, key: KeyVersion)
    ensures LabelHeld(db, key) || LabelFree(db, key) <==> Fits(db, key)
    ensures LabelHeld(db, key) ==> key.version in db.versions
  {
  }

  lemma UnfoldRegistration(db: Db, keys: seq<KeyVersion>, now: Epoch)
    requires keys != []
    ensures RegisterKeys(db, keys, now) ==
      if LabelHeld(db, keys[0]) then RegisterKeys(db, keys[1..], now)
      else if LabelFree(db, keys[0]) then RegisterKeys(WithKey(db, keys[0], now), keys[1..], now)
      else Err(WriteUnavailable)
  {
    hide LabelHeld;
    hide LabelFree;
  }

  /** Registering a keyring succeeds exactly when every key of it fits; it then adds the missing ones, unused and open,
      and changes nothing else. */
  lemma {:induction false} RegistersExactly(db: Db, keys: seq<KeyVersion>, now: Epoch)
    requires KeysApart(keys)
    ensures var r := RegisterKeys(db, keys, now);
      && (r.Ok? <==> forall k | k in keys :: Fits(db, k)) && (r.Err? ==> r == Err(WriteUnavailable))
      && (r.Ok? ==>
            && r.value.ledger == db.ledger && r.value.results == db.results
            && (forall v | v in db.versions :: v in r.value.versions && r.value.versions[v] == db.versions[v])
            && (forall k | k in keys && k.version !in db.versions ::
                  && k.version in r.value.versions
                  && r.value.versions[k.version]
                     == VersionRow(Commitment(k.material), 0, now, None, None, None, None, None))
            && (forall v | v in r.value.versions && v !in db.versions :: exists k | k in keys :: k.version == v))
    decreases |keys|
  {
    hide Fits;
    hide LabelHeld;
    hide LabelFree;
    hide FreshVersion;
    hide WithKey;
    if keys != [] {
      var key, rest := keys[0], keys[1..];
      HeldFits(db, key);
      UnfoldRegistration(db, keys, now);
      assert KeysApart(rest);
      assert forall k :: k in keys <==> k == key || k in rest;
      forall k | k in rest ensures k.version != key.version && k.material != key.material {
        var i :| 0 <= i < |rest| && rest[i] == k;
        assert keys[i + 1] == k;
      }
      if LabelHeld(db, key) {
        RegistersExactly(db, rest, now);
      } else if LabelFree(db, key) {
        var longer := WithKey(db, key, now);
        RegistersExactly(longer, rest, now);
        forall k | k in rest ensures Fits(longer, k) <==> Fits(db, k) { FitsStill(db, key, k, now); }
        WithKeyFacts(db, key, now);
      }
    }
  }

  // ---- lookups ------------------------------------------------------------------------------

  /** The row authenticates under the keyring. */
  predicate Opens(kr: Option<Keyring>, row: ResultRow) { OpenResult(kr, row.id, row).Some? }

  /** The row is a live answer to this invocation with this response. */
  predicate Answers(kr: Option<Keyring>, row: ResultRow, inv: Invocation, now: Epoch, response: Response) {
    && row.id == inv.id && row.fingerprint == inv.fingerprint && now < row.expires && Opens(kr, row)
    && DecodePlaintext(row.status, OpenResult(kr, row.id, row).value) == Some(response)
  }

  /** This very request has been answered with this response, and the answer is still live. */
  predicate Known(rows: seq<ResultRow>, kr: Option<Keyring>, inv: Invocation, now: Epoch, response: Response) {
    ValidOwner(inv.ReservationOwner()) && exists row | row in rows :: Answers(kr, row, inv, now, response)
  }

  /** Another request under the same identity has a live answer. */
  predicate Contradicted(rows: seq<ResultRow>, kr: Option<Keyring>, inv: Invocation, now: Epoch) {
    && ValidOwner(inv.ReservationOwner())
    && exists row | row in rows ::
         row.id == inv.id && row.fingerprint != inv.fingerprint && now < row.expires && Opens(kr, row)
  }

  /** What is stored under the identity does not authenticate, or authenticates as no response. */
  predicate Unreadable(rows: seq<ResultRow>, kr: Option<Keyring>, inv: Invocation, now: Epoch) {
    && ValidOwner(inv.ReservationOwner())
    && exists row | row in rows ::
         && row.id == inv.id
         && (!Opens(kr, row)
             || (now < row.expires && row.fingerprint == inv.fingerprint
                 && DecodePlaintext(row.status, OpenResult(kr, row.id, row).value).None?))
  }

  /** Nothing live is stored under the identity, and what is stored authenticates. */
  predicate Clear(rows: seq<ResultRow>, kr: Option<Keyring>, inv: Invocation, now: Epoch) {
    && ValidOwner(inv.ReservationOwner())
    && forall row | row in rows && row.id == inv.id :: row.expires <= now && Opens(kr, row)
  }

  lemma OnlyRow(rows: seq<ResultRow>, id: ResultId)
    requires UniqueResultIds(rows)
    ensures forall row | row in rows && row.id == id :: LoadResult(rows, id) == Some(row)
  {
    forall row | row in rows && row.id == id ensures LoadResult(rows, id) == Some(row) { LoadFindsTheRow(rows, row); }
  }

  /** The five outcomes of a lookup, each with exactly its cause. */
  lemma LookupMeans(rows: seq<ResultRow>, kr: Option<Keyring>, inv: Invocation, now: Epoch)
    requires UniqueResultIds(rows)
    ensures var r := Classify(inv, LoadResult(rows, inv.id), kr, now);
      && (r == Err(WriteUnavailable) <==> !ValidOwner(inv.ReservationOwner()))
      && (forall response :: r == Ok(Some(response)) <==> Known(rows, kr, inv, now, response))
      && (r == Err(Conflict) <==> Contradicted(rows, kr, inv, now))
      && (r == Err(ResultUnavailable) <==> Unreadable(rows, kr, inv, now))
      && (r == Ok(None) <==> Clear(rows, kr, inv, now))
      && (r.Err? ==> r.error.WriteUnavailable? || r.error.Conflict? || r.error.ResultUnavailable?)
  {
    hide OpenResult;
    hide DecodePlaintext;
    hide ValidOwner;
    hide LoadResult;
    hide UniqueResultIds;
    OnlyRow(rows, inv.id);
  }

  lemma ClearLater(rows: seq<ResultRow>, kr: Option<Keyring>, inv: Invocation, now: Epoch, later: Epoch)
    requires Clear(rows, kr, inv, now) && now <= later
    ensures Clear(rows, kr, inv, later)
  {
    hide OpenResult;
    hide ValidOwner;
  }

  // ---- reservations and claims --------------------------------------------------------------

  /** The active version is registered, open and below the hard limit, the nonce is well-formed and new, and the row
      passes the checks of the tables. */
  predicate Reservable(db: Db, kr: Option<Keyring>, inv: Invocation, now: Epoch, nonce: Option<Bytes>) {
    && kr.Some? && kr.value.active in db.versions
    && var row := db.versions[kr.value.active];
    && row.writeDisabled.None? && row.retired.None? && row.slots < 0x100_0000
    && nonce.Some? && |nonce.value| == 12 && NonceId(kr.value.active, nonce.value) !in db.ledger
    && (forall id | id in db.ledger && id.version == kr.value.active :: db.ledger[id].slot != row.slots + 1)
    && ValidOwner(inv.ReservationOwner()) && now >= 0
    && (row.slots + 1 >= 0x80_0000 && row.softReported.None? ==> now >= row.firstSeen)
  }

  /** A reservation is made exactly when it can be; it takes the next slot, counts it, reports the soft limit once it is
      reached, and files the nonce under this caller, unclaimed. Otherwise the tables stay as they are. */
  lemma ReservesExactly(db: Db, kr: Option<Keyring>, inv: Invocation, now: Epoch, nonce: Option<Bytes>)
    ensures var (after, outcome) := Reserve(db, kr, inv, now, nonce);
      && (outcome.Reserved? <==> Reservable(db, kr, inv, now, nonce))
      && (!outcome.Reserved? ==> after == db)
      && (outcome.Reserved? ==>
            && var version := kr.value.active; var row := db.versions[version]; var id := NonceId(version, nonce.value);
            && outcome.reservation == Reservation(version, row.slots + 1, nonce.value, now)
            && after.results == db.results
            && after.ledger == db.ledger[id := NonceRow(row.slots + 1, now, Owner(inv.id, inv.fingerprint), None)]
            && after.versions == db.versions[version := after.versions[version]]
            && after.versions[version] == row.(slots := row.slots + 1,
                 softReported := if row.softReported.None? && row.slots + 1 >= 0x80_0000 then Some(now)
                                 else row.softReported))
  {
    hide ValidOwner;
  }

  predicate NonceStored(rows: seq<ResultRow>, version: Label, nonce: Bytes) {
    exists row | row in rows :: row.version == version && row.nonce == nonce
  }

  /** Exactly this reservation of this caller is on file, unclaimed, not in the future and not used by a result. */
  predicate Claimable(db: Db, inv: Invocation, res: Reservation, now: Epoch) {
    && NonceId(res.version, res.nonce) in db.ledger
    && var row := db.ledger[NonceId(res.version, res.nonce)];
    && row == NonceRow(row.slot, res.reservedAt, Owner(inv.id, inv.fingerprint), None) && row.slot == res.slot
    && res.reservedAt <= now && !NonceStored(db.results, res.version, res.nonce)
  }

  lemma ClaimsExactly(db: Db, inv: Invocation, res: Reservation, now: Epoch)
    ensures var r := Claim(db, inv, res, now); var id := NonceId(res.version, res.nonce);
      && (r.Ok? <==> Claimable(db, inv, res, now)) && (r.Err? ==> r == Err(WriteUnavailable))
      && (r.Ok? ==>
            r.value == db.(ledger := db.ledger[id := db.ledger[id].(claimedAt := Some(now))]))
  {
  }

  // ---- completion ---------------------------------------------------------------------------

  /** The reservation is this caller's, claimed, under a version that accepts writes, and no result has used it. */
  predicate Held(db: Db, inv: Invocation, res: Reservation) {
    && NonceId(res.version, res.nonce) in db.ledger
    && var row := db.ledger[NonceId(res.version, res.nonce)];
    && row.owner == Owner(inv.id, inv.fingerprint) && row.reservedAt == res.reservedAt && row.claimedAt.Some?
    && row.slot == res.slot
    && res.version in db.versions
    && db.versions[res.version].writeDisabled.None? && db.versions[res.version].retired.None?
    && !NonceStored(db.results, res.version, res.nonce)
  }

  function Untouched(db: Db, reply: Result<Response, Failure>): Completion { Completion(db, reply, None, None) }

  /** A completion that is not to run the mutation answers and touches nothing. */
  lemma CompletionAnswers(db: Db, kr: Option<Keyring>, inv: Invocation, res: Reservation, outcome: Option<Outcome>,
                          now: Epoch)
    requires UniqueResultIds(db.results)
    ensures var t := Complete(db, kr, inv, res, outcome, now);
      && (!Held(db, inv, res) || !ValidOwner(inv.ReservationOwner()) ==> t == Untouched(db, Err(WriteUnavailable)))
      && (Held(db, inv, res) ==>
            && (forall response :: Known(db.results, kr, inv, now, response) ==> t == Untouched(db, Ok(response)))
            && (Contradicted(db.results, kr, inv, now) ==> t == Untouched(db, Err(Conflict)))
            && (Unreadable(db.results, kr, inv, now) ==> t == Untouched(db, Err(ResultUnavailable)))
            && (Clear(db.results, kr, inv, now) && outcome.None? ==> t == Untouched(db, Err(MutationRaised)))
            && (Clear(db.results, kr, inv, now) && outcome.Some? ==>
                  t == CompleteMutation(db, kr, inv, res, outcome.value, now)))
  {
    hide Classify;
    hide Known;
    hide Contradicted;
    hide Unreadable;
    hide Clear;
    hide CompleteMutation;
    hide UniqueResultIds;
    hide ValidOwner;
    LookupMeans(db.results, kr, inv, now);
  }

  /** The key is at hand and everything about the outcome can be encoded. */
  predicate Sealable(kr: Option<Keyring>, inv: Invocation, res: Reservation, response: Response, created: Epoch,
                     expires: Epoch)
  {
    && DecryptionKey(kr, res.version).Some? && |DecryptionKey(kr, res.version).value.material| == 32
    && RowAad(Owner(inv.id, inv.fingerprint), 1, response.status, res.version, created, expires).Some?
    && EncodePlaintext(response).Some? && res.version.text != [] && |res.nonce| == 12
  }

  lemma SealsExactly(kr: Option<Keyring>, inv: Invocation, res: Reservation, response: Response, created: Epoch,
                     expires: Epoch)
    ensures var s := SealOutcome(kr, inv.ReservationOwner(), res, response, created, expires);
      && (s.WasSealed? <==> Sealable(kr, inv, res, response, created, expires))
      && (s == NotSealed(WriteUnavailable) <==> DecryptionKey(kr, res.version).None?)
      && (s.NotSealed? ==> s.failure.WriteUnavailable? || s.failure.CipherUnavailable? || s.failure.EncodingRaised?)
      && (s.WasSealed? ==> s.sealing == Sealing(res.version, DecryptionKey(kr, res.version).value.material, res.nonce))
  {
    hide RowAad;
    hide EncodePlaintext;
  }

  /** Of a mutation that has returned: an outcome already over is committed and nothing stored; one that can be sealed
      and has a storable status is committed with its row; anything else rolls back. */
  lemma MutationAnswers(db: Db, kr: Option<Keyring>, inv: Invocation, res: Reservation, outcome: Outcome, now: Epoch)
    requires UniqueResultIds(db.results)
    ensures var t := CompleteMutation(db, kr, inv, res, outcome, now);
      var expires := TerminalExpiry(inv, now, outcome.replayNotAfter);
      var sealable := Sealable(kr, inv, res, outcome.response, now, expires);
      var storable := sealable && 200 <= outcome.response.status <= 499;
      && (t.commit.Some? <==> expires <= now || storable)
      && (t.reply.Ok? <==> t.commit.Some?)
      && (t.commit.None? ==> t.db == db)
      && (now < expires && DecryptionKey(kr, res.version).None? ==> t == Untouched(db, Err(WriteUnavailable)))
      && (now < expires && sealable && !storable ==> t.reply == Err(WriteUnavailable))
      && (t.sealing.Some? <==> now < expires && sealable)
      && (t.commit.Some? ==>
            && t.reply == Ok(outcome.response) && t.db.versions == db.versions && t.db.ledger == db.ledger
            && t.commit.value.stored.Some? == (now < expires)
            && (forall row: ResultRow | row.id != inv.id :: row in t.db.results <==> row in db.results)
            && (forall row | row in t.db.results && row.id == inv.id :: t.commit.value.stored == Some(row))
            && (t.commit.value.stored.Some? ==>
                  && t.commit.value.stored.value in t.db.results
                  && t.commit.value.stored.value == t.db.results[|t.db.results| - 1]
                  && t.commit.value.stored.value.expires == expires && t.commit.value.stored.value.created == now))
  {
    hide SealOutcome;
    hide Sealable;
    hide DecryptionKey;
    hide UniqueResultIds;
    SealsExactly(kr, inv, res, outcome.response, now, TerminalExpiry(inv, now, outcome.replayNotAfter));
  }

  // ---- whole calls --------------------------------------------------------------------------

  /** complete(): what its own lookup finds is answered, an unreadable row as a write error; then the claim; then the
      completing transaction. */
  lemma CompleteCallAnswers(db: Db, kr: Option<Keyring>, inv: Invocation, res: Reservation, outcome: Option<Outcome>,
                            lookupNow: Epoch, claimNow: Epoch, completeNow: Epoch)
    requires UniqueResultIds(db.results)
    ensures var t := CompleteCall(db, kr, inv, res, outcome, lookupNow, claimNow, completeNow);
      && (!ValidOwner(inv.ReservationOwner()) ==> t == Untouched(db, Err(WriteUnavailable)))
      && (forall response :: Known(db.results, kr, inv, lookupNow, response) ==> t == Untouched(db, Ok(response)))
      && (Contradicted(db.results, kr, inv, lookupNow) ==> t == Untouched(db, Err(Conflict)))
      && (Unreadable(db.results, kr, inv, lookupNow) ==> t == Untouched(db, Err(WriteUnavailable)))
      && (Clear(db.results, kr, inv, lookupNow) && !Claimable(db, inv, res, claimNow) ==>
            t == Untouched(db, Err(WriteUnavailable)))
      && (Clear(db.results, kr, inv, lookupNow) && Claimable(db, inv, res, claimNow) ==>
            var id := NonceId(res.version, res.nonce);
            var claimed := db.(ledger := db.ledger[id := db.ledger[id].(claimedAt := Some(claimNow))]);
            t == Complete(claimed, kr, inv, res, outcome, completeNow))
  {
    hide Classify;
    hide Known;
    hide Contradicted;
    hide Unreadable;
    hide Clear;
    hide Claim;
    hide Complete;
    hide UniqueResultIds;
    hide ValidOwner;
    LookupMeans(db.results, kr, inv, lookupNow);
    ClaimsExactly(db, inv, res, claimNow);
  }

  /** execute(): a known request is answered with its stored response, another fingerprint with a conflict, an
      unreadable row with an error, all without touching anything; without a reservation nothing is answered but a
      write error. */
  lemma ExecutionAnswers(db: Db, kr: Option<Keyring>, inv: Invocation, outcome: Option<Outcome>, nonce: Option<Bytes>,
                         now: Epoch, lookupNow: Epoch, claimNow: Epoch, completeNow: Epoch)
    requires UniqueResultIds(db.results)
    ensures var t := ExecuteCall(db, kr, inv, outcome, nonce, now, lookupNow, claimNow, completeNow);
      && (!ValidOwner(inv.ReservationOwner()) ==> t == Untouched(db, Err(WriteUnavailable)))
      && (forall response :: Known(db.results, kr, inv, now, response) ==> t == Untouched(db, Ok(response)))
      && (Contradicted(db.results, kr, inv, now) ==> t == Untouched(db, Err(Conflict)))
      && (Unreadable(db.results, kr, inv, now) ==> t == Untouched(db, Err(ResultUnavailable)))
      && (Clear(db.results, kr, inv, now) && !Reservable(db, kr, inv, now, nonce) ==>
            && t.reply == Err(WriteUnavailable) && t.commit.None? && t.sealing.None?
            && t.db.ledger == db.ledger && t.db.results == db.results)
      && (Clear(db.results, kr, inv, now) && Reservable(db, kr, inv, now, nonce) ==>
            var res := Reservation(kr.value.active, db.versions[kr.value.active].slots + 1, nonce.value, now);
            t == CompleteCall(Reserve(db, kr, inv, now, nonce).0, kr, inv, res, outcome, lookupNow, claimNow,
                              completeNow))
  {
    hide Classify;
    hide Known;
    hide Contradicted;
    hide Unreadable;
    hide Clear;
    hide Reserve;
    hide Reservable;
    hide CompleteCall;
    hide UniqueResultIds;
    hide ValidOwner;
    LookupMeans(db.results, kr, inv, now);
    ReservesExactly(db, kr, inv, now, nonce);
    if Reservable(db, kr, inv, now, nonce) { ReservableHasKey(db, kr, inv, now, nonce); }
  }

  lemma ReservableHasKey(db: Db, kr: Option<Keyring>, inv: Invocation, now: Epoch, nonce: Option<Bytes>)
    requires Reservable(db, kr, inv, now, nonce)
    ensures kr.Some? && kr.value.active in db.versions && nonce.Some?
  {
  }

  /** A request with nothing live in its way, a fresh nonce and an outcome that can be kept commits that outcome and is
      answered with it, however long its lookups, its claim and its completion take. */
  lemma FreshCallCommits(db: Db, kr: Option<Keyring>, inv: Invocation, outcome: Outcome, nonce: Option<Bytes>,
                         now: Epoch, lookupNow: Epoch, claimNow: Epoch, completeNow: Epoch)
    requires UniqueResultIds(db.results) && now <= lookupNow && now <= claimNow && now <= completeNow
    requires Clear(db.results, kr, inv, now) && Reservable(db, kr, inv, now, nonce)
    requires !NonceStored(db.results, kr.value.active, nonce.value)
    requires var expires := TerminalExpiry(inv, completeNow, outcome.replayNotAfter);
      var res := Reservation(kr.value.active, db.versions[kr.value.active].slots + 1, nonce.value, now);
      || expires <= completeNow
      || (Sealable(kr, inv, res, outcome.response, completeNow, expires) && 200 <= outcome.response.status <= 499)
    ensures var t := ExecuteCall(db, kr, inv, Some(outcome), nonce, now, lookupNow, claimNow, completeNow);
      && t.reply == Ok(outcome.response) && t.commit.Some?
      && t.commit.value == Commit(inv.id, inv.fingerprint, outcome.response, completeNow, t.commit.value.stored)
  {
    hide Clear;
    hide Reserve;
    hide Reservable;
    hide Claimable;
    hide Held;
    hide CompleteMutation;
    hide UniqueResultIds;
    hide ValidOwner;
    hide Sealable;
    hide ExecuteCall;
    hide CompleteCall;
    hide Complete;
    hide NonceStored;
    ReservableHasKey(db, kr, inv, now, nonce);
    var version := kr.value.active;
    var res := Reservation(version, db.versions[version].slots + 1, nonce.value, now);
    var reserved := Reserve(db, kr, inv, now, nonce).0;
    ReservesExactly(db, kr, inv, now, nonce);
    ExecutionAnswers(db, kr, inv, Some(outcome), nonce, now, lookupNow, claimNow, completeNow);
    ClearLater(db.results, kr, inv, now, lookupNow);
    ClearLater(db.results, kr, inv, now, completeNow);
    FreshIsClaimable(db, reserved, kr, inv, nonce, now, claimNow);
    CompleteCallAnswers(reserved, kr, inv, res, Some(outcome), lookupNow, claimNow, completeNow);
    var id := NonceId(version, nonce.value);
    var claimed := reserved.(ledger := reserved.ledger[id := reserved.ledger[id].(claimedAt := Some(claimNow))]);
    CompletionAnswers(claimed, kr, inv, res, Some(outcome), completeNow);
    MutationAnswers(claimed, kr, inv, res, outcome, completeNow);
    CommitOfMutation(claimed, kr, inv, res, outcome, completeNow);
  }

  lemma CommitOfMutation(db: Db, kr: Option<Keyring>, inv: Invocation, res: Reservation, outcome: Outcome, now: Epoch)
    ensures var t := CompleteMutation(db, kr, inv, res, outcome, now);
      t.commit.Some? ==>
        t.commit.value == Commit(inv.id, inv.fingerprint, outcome.response, now, t.commit.value.stored)
  {
    hide SealOutcome;
  }

  lemma FreshIsClaimable(db: Db, reserved: Db, kr: Option<Keyring>, inv: Invocation, nonce: Option<Bytes>, now: Epoch,
                         claimNow: Epoch)
    requires Reservable(db, kr, inv, now, nonce) && now <= claimNow
    requires reserved == Reserve(db, kr, inv, now, nonce).0
    requires !NonceStored(db.results, kr.value.active, nonce.value)
    ensures var res := Reservation(kr.value.active, db.versions[kr.value.active].slots + 1, nonce.value, now);
      var id := NonceId(res.version, res.nonce);
      && Claimable(reserved, inv, res, claimNow)
      && Held(reserved.(ledger := reserved.ledger[id := reserved.ledger[id].(claimedAt := Some(claimNow))]), inv, res)
  {
    hide Reserve;
    hide ValidOwner;
    ReservesExactly(db, kr, inv, now, nonce);
  }

  // ---- garbage collection -------------------------------------------------------------------

  lemma {:induction false} ShortBatchIsAll(rows: seq<ResultRow>, now: Epoch, budget: nat)
    requires |ExpiredBatch(rows, now, budget)| < budget
    ensures forall r | r in rows && r.expires <= now :: r in ExpiredBatch(rows, now, budget)
  {
    if rows != [] {
      ShortBatchIsAll(rows[1..], now, if rows[0].expires <= now then budget - 1 else budget);
      forall r | r in rows && r.expires <= now ensures r in ExpiredBatch(rows, now, budget) {
        assert r == rows[0] || r in rows[1..];
      }
    }
  }

  lemma {:induction false} DroppingStrangers(rows: seq<ResultRow>, a: set<ResultRow>, b: set<ResultRow>)
    requires forall r | r in rows :: r in a <==> r in b
    ensures Except(rows, a) == Except(rows, b)
  {
    if rows != [] { DroppingStrangers(rows[1..], a, b); }
  }

  lemma {:induction false} CollectedCount(rows: seq<ResultRow>, now: Epoch, budget: nat)
    requires UniqueResultIds(rows)
    ensures var batch := ExpiredBatch(rows, now, budget); |Except(rows, RowSet(batch))| + |batch| == |rows|
  {
    if rows != [] && budget > 0 {
      var first, rest := rows[0], rows[1..];
      var left := if first.expires <= now then budget - 1 else budget;
      var inner := ExpiredBatch(rest, now, left);
      CollectedCount(rest, now, left);
      forall r | r in rest ensures r != first { var i :| 0 <= i < |rest| && rest[i] == r; assert rows[i + 1] == r; }
      var batch := ExpiredBatch(rows, now, budget);
      assert forall r :: r in batch <==> r in inner || (r == first && first.expires <= now);
      DroppingStrangers(rest, RowSet(batch), RowSet(inner));
    } else if rows != [] {
      assert RowSet([]) == {};
      NothingExcepted(rows);
    }
  }

  lemma {:induction false} NothingExcepted(rows: seq<ResultRow>)
    ensures Except(rows, {}) == rows
  {
    if rows != [] { NothingExcepted(rows[1..]); }
  }

  /** What one collection does: it deletes expired rows only, all of them if their number is within the limit and 100,
      and reports how many; or it changes nothing, because an expired row does not authenticate. */
  lemma CollectsExactly(db: Db, kr: Option<Keyring>, limit: int, now: Epoch)
    requires UniqueResultIds(db.results)
    ensures var (after, r) := CollectGarbage(db, kr, limit, now);
      var most := if limit <= 0 then 0 else if limit > 100 then 100 else limit;
      && after == db.(results := after.results)
      && (r.Err? ==>
            && r == Err(ResultUnavailable) && after == db
            && exists row | row in db.results :: row.expires <= now && !Authentic(kr, row))
      && (r.Ok? ==>
            && r.value <= most && r.value == |db.results| - |after.results|
            && (forall row | row in after.results :: row in db.results)
            && (forall row | row in db.results && row !in after.results :: row.expires <= now && Authentic(kr, row))
            && (r.value < most ==> forall row | row in after.results :: now < row.expires))
  {
    hide Authentic;
    hide UniqueResultIds;
    var budget := GcBudget(limit);
    CollectedCount(db.results, now, budget);
    var batch := ExpiredBatch(db.results, now, budget);
    if |batch| < budget { ShortBatchIsAll(db.results, now, budget); }
  }
}
