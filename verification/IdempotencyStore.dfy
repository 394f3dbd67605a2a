/** The store itself: SQL statements against mutable tables, with rollback. Every method is proved to
    leave the tables as the corresponding transaction of IdempotencyTransactions says. */
module IdempotencyStore {
  import opened Common
  import opened ResponseCodec
  import opened AssociatedData
  import opened IdempotencyModel
  import opened IdempotencyTransactions
  import opened IdempotencyAnswers

  // ---- deleting row by row ------------------------------------------------------------------

  /** Deleting one more row by its key drops that row and nothing else. */
  lemma {:induction false} DeleteOneMore(rows: seq<ResultRow>, drop: set<ResultRow>, row: ResultRow)
    requires UniqueResultIds(rows)
    requires forall r | r in rows && r.id == row.id :: r == row
    ensures DeleteResult(Except(rows, drop), row.id) == Except(rows, drop + {row})
  {
    if rows != [] {
      DeleteOneMore(rows[1..], drop, row);
      var rest := Except(rows[1..], drop);
      if rows[0] !in drop { assert ([rows[0]] + rest)[1..] == rest; }
    }
  }

  lemma {:induction false} NothingDeleted(rows: seq<ResultRow>, id: ResultId)
    requires forall r | r in rows :: r.id != id
    ensures DeleteResult(rows, id) == rows
  {
    hide UniqueResultIds;
    if rows != [] {
      NothingDeleted(rows[1..], id);
      assert [rows[0]] + rows[1..] == rows;
    }
  }

  lemma LongerBatch(batch: seq<ResultRow>, i: nat)
    requires i < |batch|
    ensures RowSet(batch[..i + 1]) == RowSet(batch[..i]) + {batch[i]}
  {
    assert batch[..i + 1] == batch[..i] + [batch[i]];
  }

  lemma RowsOfLongerPrefix(rows: seq<ResultRow>, i: nat, version: Label)
    requires i < |rows|
    ensures RowsOfVersion(rows[..i + 1], version)
         == RowsOfVersion(rows[..i], version) + if OfVersion(rows[i], version) then {rows[i]} else {}
  {
    assert rows[..i + 1] == rows[..i] + [rows[i]];
  }

  /** Nothing but the lifecycle row of one known version differs. */
  predicate OnlyVersion(before: Db, after: Db, version: Label) {
    && after.ledger == before.ledger && after.results == before.results
    && after.versions.Keys == before.versions.Keys
    && forall v | v in before.versions && v != version :: after.versions[v] == before.versions[v]
  }

  /** The version is marked with its earlier epoch or this one and none of its results is left; nothing else differs. */
  ghost predicate RetiredFrom(before: Db, after: Db, version: Label, now: Epoch) {
    && version in before.versions && after.ledger == before.ledger
    && OnlyVersion(before.(results := after.results), after, version)
    && var row := before.versions[version];
    && after.versions[version] == row.(retired := if row.retired.Some? then row.retired else Some(now))
    && (forall r :: r in after.results <==> r in before.results && r.version != version)
  }

  lemma RetiresExactly(db: Db, version: Label, active: Label, kr: Option<Keyring>, now: Epoch)
    ensures var r := RetireTransaction(db, version, active, kr, now);
      && (r == Err(UnexpiredResultsRemain) <==>
            exists row | row in db.results :: row.version == version && now < row.expires)
      && (r.Ok? <==>
            && (forall row | row in db.results && row.version == version ::
                  row.expires <= now && ValidOwner(Owner(row.id, row.fingerprint)) && Opens(kr, row))
            && version in db.versions && db.versions[version].writeDisabled.Some?
            && db.versions[version].drained.Some? && db.versions[version].drained.value + 86_700 <= now
            && active in db.versions
            && db.versions[active].writeDisabled.None? && db.versions[active].retired.None?)
      && (r.Err? ==> r.error.UnexpiredResultsRemain? || r.error.LifecycleUnavailable?)
      && (r.Ok? ==> RetiredFrom(db, r.value, version, now))
  {
    hide OpenResult;
    hide ValidOwner;
    hide Except;
  }

  /** The completing transaction in terms of the rows. */
  lemma CompletedAnswers(db: Db, kr: Option<Keyring>, inv: Invocation, res: Reservation, outcome: Option<Outcome>,
                         now: Epoch)
    requires UniqueResultIds(db.results)
    ensures var t := Complete(db, kr, inv, res, outcome, now);
      && (!Held(db, inv, res) ==> t == Untouched(db, Err(WriteUnavailable)))
      && (Held(db, inv, res) ==>
            && (forall response :: Known(db.results, kr, inv, now, response) ==> t == Untouched(db, Ok(response)))
            && (Contradicted(db.results, kr, inv, now) ==> t == Untouched(db, Err(Conflict)))
            && (Unreadable(db.results, kr, inv, now) ==> t == Untouched(db, Err(ResultUnavailable)))
            && (Clear(db.results, kr, inv, now) && outcome.None? ==> t == Untouched(db, Err(MutationRaised))))
      && (t.reply.Err? ==> t.commit.None?) && (t.commit.None? ==> t.db == db)
      && (t.commit.Some? ==>
            && Held(db, inv, res) && Clear(db.results, kr, inv, now) && outcome.Some?
            && t.reply == Ok(outcome.value.response)
            && (forall row: ResultRow | row.id != inv.id :: row in t.db.results <==> row in db.results)
            && (forall row | row in t.db.results && row.id == inv.id :: t.commit.value.stored == Some(row)))
  {
    hide Classify;
    hide Known;
    hide Contradicted;
    hide Unreadable;
    hide Clear;
    hide Held;
    hide CompleteMutation;
    hide Complete;
    hide UniqueResultIds;
    hide ValidOwner;
    hide Sealable;
    LookupMeans(db.results, kr, inv, now);
    CompletionAnswers(db, kr, inv, res, outcome, now);
    if outcome.Some? { MutationAnswers(db, kr, inv, res, outcome.value, now); }
    match Classify(inv, LoadResult(db.results, inv.id), kr, now)
    case Ok(Some(response)) => assert Known(db.results, kr, inv, now, response);
    case Ok(None) => assert Clear(db.results, kr, inv, now);
    case Err(_) =>
  }

  class SqliteIdempotencyStore {
    const keyring: Option<Keyring>
    var versions: map<Label, VersionRow>
    var ledger: map<NonceId, NonceRow>
    var results: seq<ResultRow>

    /** The primary key of the results table. */
    ghost predicate Valid() reads this { UniqueResultIds(results) }

    function Tables(): Db reads this { Db(versions, ledger, results) }

    constructor (db: Db, keyring: Option<Keyring>)
      requires UniqueResultIds(db.results)
      ensures Valid() && Tables() == db && this.keyring == keyring
    {
      this.keyring := keyring;
      versions, ledger, results := db.versions, db.ledger, db.results;
    }

    method RegisterKeyring(now: Epoch) returns (r: Result<(), Failure>)
      requires Valid()
      modifies this
      ensures Valid()
      ensures keyring.None? ==> r.Ok? && Tables() == old(Tables())
      ensures keyring.Some? ==>
        match RegisterKeys(old(Tables()), keyring.value.keys, now)
        case Ok(db) => r.Ok? && Tables() == db
        case Err(e) => r == Err(e) && Tables() == old(Tables())
      ensures keyring.Some? && ValidKeyring(keyring.value) ==>
        && (r.Ok? <==> forall k | k in keyring.value.keys :: Fits(old(Tables()), k))
        && (r.Ok? ==>
              && ledger == old(ledger) && results == old(results)
              && (forall v | v in old(versions) :: v in versions && versions[v] == old(versions)[v])
              && (forall k | k in keyring.value.keys && k.version !in old(versions) ::
                    && k.version in versions
                    && versions[k.version] == VersionRow(Commitment(k.material), 0, now, None, None, None, None, None))
              && (forall v | v in versions && v !in old(versions) ::
                    exists k | k in keyring.value.keys :: k.version == v))
    {
      hide Fits;
      if keyring.Some? && ValidKeyring(keyring.value) { RegistersExactly(Tables(), keyring.value.keys, now); }
      if keyring.None? { return Ok(()); }
      var snapshot := versions;
      var keys := keyring.value.keys;
      var i := 0;
      while i < |keys|
        invariant 0 <= i <= |keys|
        invariant ledger == old(ledger) && results == old(results)
        invariant RegisterKeys(Tables(), keys[i..], now) == RegisterKeys(old(Tables()), keys, now)
      {
        var key := keys[i];
        assert keys[i..][0] == key && keys[i..][1..] == keys[i + 1..];
        // INSERT OR IGNORE: label and commitment are both unique.
        if key.version !in versions
           && forall v | v in versions :: versions[v].commitment != Commitment(key.material) {
          versions := versions[key.version := FreshVersion(key, now)];
        } else if key.version !in versions || versions[key.version].commitment != Commitment(key.material) {
          versions := snapshot;
          return Err(WriteUnavailable);
        }
        i := i + 1;
      }
      assert keys[i..] == [];
      return Ok(());
    }

    /** A live row answers or conflicts, an expired one lets the call proceed, an unreadable one stops it; and what
        was sealed for this identity comes back unchanged. */
    method Lookup(inv: Invocation, now: Epoch) returns (r: Result<Option<Response>, Failure>)
      requires Valid()
      ensures r == Classify(inv, LoadResult(results, inv.id), keyring, now)
      ensures r == Ok(None) <==>
        && ValidOwner(inv.ReservationOwner())
        && forall row | row in results && row.id == inv.id :: row.expires <= now && Opens(keyring, row)
      ensures r == Err(Conflict) <==>
        && ValidOwner(inv.ReservationOwner())
        && exists row | row in results ::
             row.id == inv.id && row.fingerprint != inv.fingerprint && now < row.expires && Opens(keyring, row)
      ensures forall response :: r == Ok(Some(response)) <==>
        ValidOwner(inv.ReservationOwner()) && exists row | row in results :: Answers(keyring, row, inv, now, response)
      ensures forall row, material, response |
        && row in results && row.id == inv.id && SealedFor(row, material, response)
        && now < row.expires && ValidOwner(inv.ReservationOwner())
        && DecryptionKey(keyring, row.version).Some?
        && DecryptionKey(keyring, row.version).value.material == material ::
        r == if row.fingerprint == inv.fingerprint then Ok(Some(response)) else Err(Conflict)
    {
      hide OpenResult;
      hide DecodePlaintext;
      hide SealedFor;
      hide LoadResult;
      hide ValidOwner;
      var row := LoadResult(results, inv.id);
      r := Classify(inv, row, keyring, now);
      forall other | other in results && other.id == inv.id ensures row == Some(other) {
        LoadFindsTheRow(results, other);
      }
      forall other, material, response |
        && other in results && other.id == inv.id && SealedFor(other, material, response)
        && now < other.expires && ValidOwner(inv.ReservationOwner())
        && DecryptionKey(keyring, other.version).Some?
        && DecryptionKey(keyring, other.version).value.material == material
        ensures r == if other.fingerprint == inv.fingerprint then Ok(Some(response)) else Err(Conflict)
      {
        LiveRowAnswers(inv, keyring, other, material, response, now);
      }
    }

    /** The reserving transaction: counter, soft-limit report and ledger row commit together or not at all. */
    method ReserveTransaction(inv: Invocation, now: Epoch, nonce: Option<Bytes>) returns (outcome: ReserveOutcome)
      requires Valid()
      modifies this
      ensures Valid()
      ensures (Tables(), outcome) == Reserve(old(Tables()), keyring, inv, now, nonce)
    {
      if keyring.None? { return Refused; }
      var version := keyring.value.active;
      if version !in versions { return Refused; }
      var snapshot := versions;
      var row := versions[version];
      if !(row.Writable() && row.slots < HARD_SLOT_LIMIT) {
        return if row.slots >= HARD_SLOT_LIMIT && row.Writable() then DisableNeeded(version, HardLimit) else Refused;
      }
      var slot := row.slots + 1;
      versions := versions[version := row.(slots := slot)];
      if slot >= SOFT_SLOT_LIMIT && row.softReported.None? {
        if now < row.firstSeen {
          versions := snapshot;
          return Refused;
        }
        versions := versions[version := versions[version].(softReported := Some(now))];
      }
      if nonce.None? || |nonce.value| != NONCE_BYTES {
        versions := snapshot;
        return Refused;
      }
      var id := NonceId(version, nonce.value);
      if id in ledger || (exists k | k in ledger :: k.version == version && ledger[k].slot == slot)
         || !ValidOwner(inv.ReservationOwner()) || now < 0 {
        versions := snapshot;
        return DisableNeeded(version, NonceCollision);
      }
      ledger := ledger[id := NonceRow(slot, now, inv.ReservationOwner(), None)];
      assert versions == snapshot[version := versions[version]];
      return Reserved(Reservation(version, slot, nonce.value, now));
    }

    /** Closes a writable version with this epoch and reason, once: an earlier closing stays as it was, a retired
        version is left alone, and a closed active version serves no reservation any more. */
    method WriteDisableVersion(version: Label, reason: Reason, now: Epoch)
      requires Valid()
      modifies this
      ensures Valid() && Tables() == WriteDisable(old(Tables()), version, reason, now)
      ensures OnlyVersion(old(Tables()), Tables(), version)
      ensures version in versions && !old(versions)[version].Writable() ==> versions == old(versions)
      ensures version in versions && old(versions)[version].Writable() && old(versions)[version].firstSeen <= now ==>
        versions[version] == old(versions)[version].(writeDisabled := Some(now), reason := Some(reason))
      ensures version in versions && old(versions)[version].firstSeen <= now ==>
        && !versions[version].Writable()
        && (keyring.Some? && keyring.value.active == version ==>
              forall inv, t, nonce :: Reserve(Tables(), keyring, inv, t, nonce) == (Tables(), Refused))
    {
      if version in versions && versions[version].retired.None? {
        var row := versions[version];
        var epoch := if row.writeDisabled.Some? then row.writeDisabled else Some(now);
        // An epoch before first_seen fails the table's CHECK and rolls back.
        if row.writeDisabled.None? && row.firstSeen <= now {
          versions := versions[version := row.(writeDisabled := epoch, reason := Some(reason))];
        }
      }
    }

    /** reserve_nonce: a refused transaction that found the limit or a collision disables the version afterwards. */
    method ReserveNonce(inv: Invocation, now: Epoch, nonce: Option<Bytes>) returns (r: Result<Reservation, Failure>)
      requires Valid()
      modifies this
      ensures Valid()
      ensures var (db, outcome) := Reserve(old(Tables()), keyring, inv, now, nonce);
              match outcome
              case Reserved(res) => r == Ok(res) && Tables() == db
              case DisableNeeded(version, reason) =>
                r == Err(WriteUnavailable) && Tables() == WriteDisable(old(Tables()), version, reason, now)
              case Refused => r == Err(WriteUnavailable) && Tables() == old(Tables())
      ensures r.Ok? <==> Reservable(old(Tables()), keyring, inv, now, nonce)
      ensures r.Err? ==> r == Err(WriteUnavailable)
      ensures results == old(results) && (r.Err? ==> ledger == old(ledger))
      ensures r.Ok? ==>
        && var version := keyring.value.active; var before := old(versions)[version];
        && r.value == Reservation(version, before.slots + 1, nonce.value, now)
        && ledger == old(ledger)[NonceId(version, nonce.value) :=
             NonceRow(before.slots + 1, now, Owner(inv.id, inv.fingerprint), None)]
        && OnlyVersion(old(Tables()).(ledger := ledger), Tables(), version)
        && versions[version] == before.(slots := before.slots + 1,
             softReported := if before.softReported.None? && before.slots + 1 >= 0x80_0000 then Some(now)
                             else before.softReported)
    {
      hide Reservable;
      hide Reserve;
      ReservesExactly(Tables(), keyring, inv, now, nonce);
      if Reservable(Tables(), keyring, inv, now, nonce) { ReservableHasKey(Tables(), keyring, inv, now, nonce); }
      var outcome := ReserveTransaction(inv, now, nonce);
      match outcome
      case Reserved(res) => r := Ok(res);
      case DisableNeeded(version, reason) =>
        WriteDisableVersion(version, reason, now);
        r := Err(WriteUnavailable);
      case Refused => r := Err(WriteUnavailable);
    }

    method ClaimReservation(inv: Invocation, res: Reservation, now: Epoch) returns (r: Result<(), Failure>)
      requires Valid()
      modifies this`ledger
      ensures Valid()
      ensures match Claim(old(Tables()), inv, res, now)
              case Ok(db) => r.Ok? && Tables() == db
              case Err(e) => r == Err(e) && Tables() == old(Tables())
      ensures r == if Claimable(old(Tables()), inv, res, now) then Ok(()) else Err(WriteUnavailable)
      ensures r.Err? ==> ledger == old(ledger)
      ensures r.Ok? ==>
        && var id := NonceId(res.version, res.nonce);
        && ledger == old(ledger)[id := old(ledger)[id].(claimedAt := Some(now))]
    {
      var id := NonceId(res.version, res.nonce);
      if id !in ledger { return Err(WriteUnavailable); }
      var row := ledger[id];
      if row.slot != res.slot || row.reservedAt != res.reservedAt || row.owner != inv.ReservationOwner()
         || row.claimedAt.Some? || now < row.reservedAt
         || ResultUsesNonce(Tables(), res.version, res.nonce) {
        return Err(WriteUnavailable);
      }
      ledger := ledger[id := row.(claimedAt := Some(now))];
      return Ok(());
    }

    /** The body of the completing transaction, with its rollbacks. The outcome is what the mutation returns if it is
        reached. */
    method CompleteInTransaction(inv: Invocation, res: Reservation, outcome: Option<Outcome>, now: Epoch)
      returns (reply: Result<Response, Failure>, commit: Option<Commit>, sealing: Option<Sealing>)
      requires Valid()
      modifies this`results
      ensures Valid()
      ensures Completion(Tables(), reply, commit, sealing)
           == Complete(old(Tables()), keyring, inv, res, outcome, now)
    {
      hide Classify;
      hide SealOutcome;
      hide SealedFor;
      commit, sealing := None, None;
      if !LedgerHolds(Tables(), inv.ReservationOwner(), res) || res.version !in versions
         || !versions[res.version].Writable() {
        return Err(WriteUnavailable), None, None;
      }
      if ledger[NonceId(res.version, res.nonce)].claimedAt.None? { return Err(WriteUnavailable), None, None; }
      var record := LoadResult(results, inv.id);
      if ResultUsesNonce(Tables(), res.version, res.nonce) { return Err(WriteUnavailable), None, None; }
      match Classify(inv, record, keyring, now)
      case Err(failure) => return Err(failure), None, None;
      case Ok(Some(response)) => return Ok(response), None, None;
      case Ok(None) =>
      var snapshot := results;
      if record.Some? {
        results := DeleteResult(results, inv.id);
      } else {
        NothingDeleted(results, inv.id);
      }
      if outcome.None? {
        results := snapshot;
        return Err(MutationRaised), None, None;
      }
      var response := outcome.value.response;
      var expires := TerminalExpiry(inv, now, outcome.value.replayNotAfter);
      if expires <= now {
        return Ok(response), Some(Commit(inv.id, inv.fingerprint, response, now, None)), None;
      }
      match SealOutcome(keyring, inv.ReservationOwner(), res, response, now, expires)
      case NotSealed(failure) =>
        results := snapshot;
        return Err(failure), None, None;
      case WasSealed(ciphertext, s) =>
      // The table's CHECK on the status code is met or the transaction rolls back, after encrypting.
      if !(200 <= response.status <= 499) {
        results := snapshot;
        return Err(WriteUnavailable), None, Some(s);
      }
      var row := ResultRow(inv.id, inv.fingerprint, ENVELOPE_FORMAT_VERSION, response.status,
                           res.version, res.nonce, ciphertext, now, expires);
      results := results + [row];
      return Ok(response), Some(Commit(inv.id, inv.fingerprint, response, now, Some(row))), Some(s);
    }

    /** The completing transaction: what is told and what is left. The outcome is what the mutation returns if it is
        reached. */
    method CompleteTransaction(inv: Invocation, res: Reservation, outcome: Option<Outcome>, now: Epoch)
      returns (reply: Result<Response, Failure>, commit: Option<Commit>, sealing: Option<Sealing>)
      requires Valid()
      modifies this`results
      ensures Valid()
      ensures Completion(Tables(), reply, commit, sealing)
           == Complete(old(Tables()), keyring, inv, res, outcome, now)
      // Without a reservation in hand, or with something stored that answers, the mutation does not run.
      ensures !Held(old(Tables()), inv, res) ==> reply == Err(WriteUnavailable) && commit.None?
      ensures Held(old(Tables()), inv, res) ==>
        && (forall response | Known(old(results), keyring, inv, now, response) :: reply == Ok(response) && commit.None?)
        && (Contradicted(old(results), keyring, inv, now) ==> reply == Err(Conflict))
        && (Unreadable(old(results), keyring, inv, now) ==> reply == Err(ResultUnavailable))
        && (Clear(old(results), keyring, inv, now) && outcome.None? ==> reply == Err(MutationRaised))
      ensures reply.Err? ==> commit.None?
      ensures commit.None? ==> results == old(results)
      // Whatever was committed is the answer, and is stored alone under the identity or not at all.
      ensures commit.Some? ==>
        && Held(old(Tables()), inv, res) && Clear(old(results), keyring, inv, now) && outcome.Some?
        && reply == Ok(outcome.value.response)
        && (forall row: ResultRow | row.id != inv.id :: row in results <==> row in old(results))
        && (forall row | row in results && row.id == inv.id :: commit.value.stored == Some(row))
    {
      hide Known;
      hide Contradicted;
      hide Unreadable;
      hide Clear;
      hide Held;
      CompletedAnswers(Tables(), keyring, inv, res, outcome, now);
      reply, commit, sealing := CompleteInTransaction(inv, res, outcome, now);
    }

    /** complete(): look again, claim in a transaction of its own, then complete. The epochs are the ones read
        by each of the three. */
    method ClaimAndComplete(inv: Invocation, res: Reservation, outcome: Option<Outcome>,
                            lookupNow: Epoch, claimNow: Epoch, completeNow: Epoch)
      returns (reply: Result<Response, Failure>, commit: Option<Commit>, sealing: Option<Sealing>)
      requires Valid()
      modifies this`ledger, this`results
      ensures Valid()
      ensures Completion(Tables(), reply, commit, sealing)
           == CompleteCall(old(Tables()), keyring, inv, res, outcome, lookupNow, claimNow, completeNow)
      ensures forall response | Known(old(results), keyring, inv, lookupNow, response) ::
        reply == Ok(response) && commit.None? && Tables() == old(Tables())
      ensures Contradicted(old(results), keyring, inv, lookupNow) ==>
        reply == Err(Conflict) && commit.None? && Tables() == old(Tables())
      ensures !ValidOwner(inv.ReservationOwner()) || Unreadable(old(results), keyring, inv, lookupNow)
              || (Clear(old(results), keyring, inv, lookupNow) && !Claimable(old(Tables()), inv, res, claimNow)) ==>
        reply == Err(WriteUnavailable) && commit.None? && Tables() == old(Tables())
    {
      hide Known;
      hide Contradicted;
      hide Unreadable;
      hide Clear;
      hide Claimable;
      CompleteCallAnswers(Tables(), keyring, inv, res, outcome, lookupNow, claimNow, completeNow);
      hide Classify;
      hide SealOutcome;
      hide SealedFor;
      commit, sealing := None, None;
      var found := Lookup(inv, lookupNow);
      match found
      case Err(e) => reply := Err(if e.ResultUnavailable? then WriteUnavailable else e);
      case Ok(Some(response)) => reply := Ok(response);
      case Ok(None) =>
        var claimed := ClaimReservation(inv, res, claimNow);
        if claimed.Err? {
          reply := Err(claimed.error);
        } else {
          reply, commit, sealing := CompleteTransaction(inv, res, outcome, completeNow);
        }
    }

    /** execute(): lookup, reserve, complete. */
    method Execute(inv: Invocation, outcome: Option<Outcome>, nonce: Option<Bytes>,
                   now: Epoch, lookupNow: Epoch, claimNow: Epoch, completeNow: Epoch)
      returns (reply: Result<Response, Failure>, commit: Option<Commit>, sealing: Option<Sealing>)
      requires Valid()
      modifies this
      ensures Valid()
      ensures Completion(Tables(), reply, commit, sealing)
           == ExecuteCall(old(Tables()), keyring, inv, outcome, nonce, now, lookupNow, claimNow, completeNow)
      // A retry is answered with what was stored, a different request under the key with a conflict; neither leaves a
      // trace. What cannot be read or reserved is refused.
      ensures forall response | Known(old(results), keyring, inv, now, response) ::
        reply == Ok(response) && commit.None? && sealing.None? && Tables() == old(Tables())
      ensures Contradicted(old(results), keyring, inv, now) ==>
        reply == Err(Conflict) && commit.None? && sealing.None? && Tables() == old(Tables())
      ensures Unreadable(old(results), keyring, inv, now) ==>
        reply == Err(ResultUnavailable) && commit.None? && sealing.None? && Tables() == old(Tables())
      ensures !ValidOwner(inv.ReservationOwner()) ==>
        reply == Err(WriteUnavailable) && commit.None? && sealing.None? && Tables() == old(Tables())
      ensures Clear(old(results), keyring, inv, now) && !Reservable(old(Tables()), keyring, inv, now, nonce) ==>
        && reply == Err(WriteUnavailable) && commit.None? && sealing.None?
        && ledger == old(ledger) && results == old(results)
      ensures commit.Some? ==> outcome.Some? && reply == Ok(outcome.value.response)
    {
      hide Known;
      hide Contradicted;
      hide Unreadable;
      hide Clear;
      hide Reservable;
      hide Reserve;
      ExecutionAnswers(Tables(), keyring, inv, outcome, nonce, now, lookupNow, claimNow, completeNow);
      ExecutionIsFaithful(Tables(), keyring, inv, outcome, nonce, now, lookupNow, claimNow, completeNow);
      hide Classify;
      hide CompleteCall;
      hide LoadResult;
      hide ValidOwner;
      commit, sealing := None, None;
      var found := Lookup(inv, now);
      match found
      case Err(e) => reply := Err(e);
      case Ok(Some(response)) => reply := Ok(response);
      case Ok(None) =>
        var reserved := ReserveNonce(inv, now, nonce);
        if reserved.Err? {
          reply := Err(reserved.error);
        } else {
          reply, commit, sealing := ClaimAndComplete(inv, reserved.value, outcome, lookupNow, claimNow, completeNow);
        }
    }

    /** The deleting loop: each expired row of the batch is authenticated before it is deleted. */
    method DeleteExpired(limit: int, now: Epoch) returns (r: Result<nat, Failure>)
      requires Valid()
      modifies this`results
      ensures Valid()
      ensures (Tables(), r) == CollectGarbage(old(Tables()), keyring, limit, now)
    {
      hide Classify;
      hide Authentic;
      var budget := GcBudget(limit);
      NothingExcepted(results);
      assert RowSet([]) == {};
      if budget == 0 { return Ok(0); }
      var snapshot := results;
      var batch := ExpiredBatch(results, now, budget);
      ghost var gone: set<ResultRow> := {};
      var i := 0;
      while i < |batch|
        invariant 0 <= i <= |batch|
        invariant gone == RowSet(batch[..i])
        invariant results == Except(snapshot, gone)
        invariant AllAuthentic(keyring, gone)
      {
        var row := batch[i];
        assert row in batch;
        ExpiredRowsProceed(row, keyring, now);
        match Classify(RowOwner(row), Some(row), keyring, now)
        case Err(e) =>
          results := snapshot;
          assert row in RowSet(batch);
          return Err(ResultUnavailable);
        case Ok(Some(_)) =>
          assert false;
        case Ok(None) =>
          forall r | r in snapshot && r.id == row.id ensures r == row { SameIdSameRow(snapshot, r, row); }
          DeleteOneMore(snapshot, gone, row);
          results := DeleteResult(results, row.id);
          gone := gone + {row};
          LongerBatch(batch, i);
          i := i + 1;
      }
      assert batch[..i] == batch;
      return Ok(|batch|);
    }

    /** gc_expired_results: at most 100 expired rows, each authenticated before it is deleted. */
    method GcExpiredResults(limit: int, now: Epoch) returns (r: Result<nat, Failure>)
      requires Valid()
      modifies this`results
      ensures Valid()
      ensures (Tables(), r) == CollectGarbage(old(Tables()), keyring, limit, now)
      ensures r.Err? ==> results == old(results) && r == Err(ResultUnavailable)
      ensures r.Ok? ==>
        && var most := if limit <= 0 then 0 else if limit > 100 then 100 else limit;
        && r.value <= most && r.value == |old(results)| - |results|
        && (forall row | row in results :: row in old(results))
        && (forall row | row in old(results) && row !in results :: row.expires <= now && Authentic(keyring, row))
        && (r.value < most ==> forall row | row in results :: now < row.expires)
    {
      hide CollectGarbage;
      hide Authentic;
      CollectsExactly(Tables(), keyring, limit, now);
      r := DeleteExpired(limit, now);
    }

    /** The operator's write disable: refused for an unknown or retired version or under another reason; otherwise
        the version is closed under this reason, from the first closing on, and repeating the call changes nothing. */
    method DisableVersion(version: Label, reason: Reason, now: Epoch) returns (r: Result<(), LifecycleError>)
      requires Valid()
      modifies this`versions
      ensures Valid() && OnlyVersion(old(Tables()), Tables(), version)
      ensures r == Err(UnknownVersion) <==> version !in old(versions)
      ensures r == Err(VersionRetired) <==> version in old(versions) && old(versions)[version].retired.Some?
      ensures r == Err(WriteDisableReasonConflict) <==>
        && version in old(versions) && old(versions)[version].retired.None?
        && old(versions)[version].writeDisabled.Some? && old(versions)[version].reason != Some(reason)
      ensures r == Err(LifecycleUnavailable) <==>
        version in old(versions) && old(versions)[version].Writable() && now < old(versions)[version].firstSeen
      ensures r.Ok? ==>
        && Tables() == WriteDisable(old(Tables()), version, reason, now)
        && version in versions && versions[version].retired.None? && versions[version].reason == Some(reason)
        && var earlier := old(versions)[version].writeDisabled;
        && versions[version].writeDisabled == (if earlier.Some? then earlier else Some(now))
        && (forall t :: DisableCall(Tables(), version, reason, t) == Ok(Tables()))
        && (keyring.Some? && keyring.value.active == version ==>
              forall inv, t, nonce :: Reserve(Tables(), keyring, inv, t, nonce) == (Tables(), Refused))
      ensures match DisableCall(old(Tables()), version, reason, now)
              case Ok(db) => r.Ok? && Tables() == db
              case Err(e) => r == Err(e) && Tables() == old(Tables())
    {
      if version !in versions { return Err(UnknownVersion); }
      var row := versions[version];
      if row.retired.Some? { return Err(VersionRetired); }
      if row.writeDisabled.Some? {
        return if row.reason != Some(reason) then Err(WriteDisableReasonConflict) else Ok(());
      }
      if now < row.firstSeen { return Err(LifecycleUnavailable); }
      versions := versions[version := row.(writeDisabled := Some(now), reason := Some(reason))];
      return Ok(());
    }

    /** Refused before the disable and after retirement; otherwise the drain is on record, not before the disable,
        and once: repeating it changes nothing, and retirement is refused until the window from it has passed. */
    method Drain(version: Label, now: Epoch) returns (r: Result<(), LifecycleError>)
      requires Valid()
      modifies this`versions
      ensures Valid() && OnlyVersion(old(Tables()), Tables(), version)
      ensures r == Err(UnknownVersion) <==> version !in old(versions)
      ensures r == Err(WriteDisableRequired) <==> version in old(versions) && old(versions)[version].writeDisabled.None?
      ensures r == Err(VersionRetired) <==>
        && version in old(versions) && old(versions)[version].writeDisabled.Some?
        && old(versions)[version].retired.Some?
      ensures r == Err(LifecycleUnavailable) <==>
        && version in old(versions) && old(versions)[version].writeDisabled.Some?
        && old(versions)[version].retired.None?
        && old(versions)[version].drained.None? && now < old(versions)[version].writeDisabled.value
      ensures r.Ok? ==>
        && version in versions && versions[version].drained.Some?
        && versions[version].(drained := old(versions)[version].drained) == old(versions)[version]
        && (if old(versions)[version].drained.Some? then versions == old(versions)
            else versions[version].drained == Some(now) && versions[version].writeDisabled.value <= now)
        && (forall t :: DrainCall(Tables(), version, t) == Ok(Tables()))
        && (forall active, checkNow, t | checkNow < versions[version].drained.value + REMOVAL_WINDOW_SECONDS ::
              RetireCall(Tables(), version, active, keyring, checkNow, t) == Err(RemovalWindowNotElapsed))
      ensures match DrainCall(old(Tables()), version, now)
              case Ok(db) => r.Ok? && Tables() == db
              case Err(e) => r == Err(e) && Tables() == old(Tables())
    {
      if version !in versions { return Err(UnknownVersion); }
      var row := versions[version];
      if row.writeDisabled.None? { return Err(WriteDisableRequired); }
      if row.retired.Some? { return Err(VersionRetired); }
      if row.drained.Some? { return Ok(()); }
      if now < row.writeDisabled.value { return Err(LifecycleUnavailable); }
      versions := versions[version := row.(drained := Some(now))];
      return Ok(());
    }

    /** Authenticates and deletes the results of one version, one by one; a failure restores them all. */
    method DeleteVersionResults(version: Label) returns (ok: bool)
      requires Valid()
      modifies this`results
      ensures Valid()
      ensures ok == AllAuthentic(keyring, RowsOfVersion(old(results), version))
      ensures results == if ok then Except(old(results), RowsOfVersion(old(results), version)) else old(results)
    {
      hide Authentic;
      var snapshot := results;
      ghost var gone: set<ResultRow> := {};
      NothingExcepted(results);
      var i := 0;
      while i < |snapshot|
        invariant 0 <= i <= |snapshot|
        invariant gone == RowsOfVersion(snapshot[..i], version)
        invariant results == Except(snapshot, gone)
        invariant AllAuthentic(keyring, gone)
      {
        var row := snapshot[i];
        if OfVersion(row, version) {
          if !Authentic(keyring, row) {
            results := snapshot;
            assert row in RowsOfVersion(snapshot, version);
            return false;
          }
          forall r | r in snapshot && r.id == row.id ensures r == row { SameIdSameRow(snapshot, r, row); }
          DeleteOneMore(snapshot, gone, row);
          results := DeleteResult(results, row.id);
          gone := gone + {row};
        }
        RowsOfLongerPrefix(snapshot, i, version);
        i := i + 1;
      }
      assert snapshot[..i] == snapshot;
      return true;
    }

    /** retire_lifecycle_version: authenticate and delete every result of the version, then mark it retired. */
    method RetireVersion(version: Label, active: Label, now: Epoch) returns (r: Result<(), LifecycleError>)
      requires Valid()
      modifies this`versions, this`results
      ensures Valid()
      ensures match RetireTransaction(old(Tables()), version, active, keyring, now)
              case Ok(db) => r.Ok? && Tables() == db
              case Err(e) => r == Err(e) && Tables() == old(Tables())
      ensures r == Err(UnexpiredResultsRemain) <==>
        exists row | row in old(results) :: row.version == version && now < row.expires
      ensures r.Ok? <==>
        && (forall row | row in old(results) && row.version == version ::
              row.expires <= now && ValidOwner(Owner(row.id, row.fingerprint)) && Opens(keyring, row))
        && version in old(versions) && old(versions)[version].writeDisabled.Some?
        && old(versions)[version].drained.Some? && old(versions)[version].drained.value + 86_700 <= now
        && active in old(versions)
        && old(versions)[active].writeDisabled.None? && old(versions)[active].retired.None?
      ensures r.Err? ==> Tables() == old(Tables()) && (r.error.UnexpiredResultsRemain? || r.error.LifecycleUnavailable?)
      ensures r.Ok? ==> RetiredFrom(old(Tables()), Tables(), version, now)
      ensures r.Ok? ==> forall a, c, t :: RetireCall(Tables(), version, a, keyring, c, t) == Ok(Tables())
    {
      RetiresExactly(Tables(), version, active, keyring, now);
      if !AllExpired(results, version, now) {
        return Err(UnexpiredResultsRemain);
      }
      var snapshot := results;
      var deleted := DeleteVersionResults(version);
      if !deleted {
        return Err(LifecycleUnavailable);
      }
      if (exists row | row in results :: OfVersion(row, version)) || !MayRetire(Tables(), version, active, now) {
        results := snapshot;
        return Err(LifecycleUnavailable);
      }
      var row := versions[version];
      versions := versions[version := row.(retired := if row.retired.Some? then row.retired else Some(now))];
      return Ok(());
    }

    /** retire(): the lifecycle checks on an earlier read of the tables and the clock, then the transaction. */
    method Retire(version: Label, active: Label, checkNow: Epoch, now: Epoch) returns (r: Result<(), LifecycleError>)
      requires Valid()
      modifies this`versions, this`results
      ensures Valid()
      ensures match RetireCall(old(Tables()), version, active, keyring, checkNow, now)
              case Ok(db) => r.Ok? && Tables() == db
              case Err(e) => r == Err(e) && Tables() == old(Tables())
      ensures version in old(versions) && old(versions)[version].retired.Some? ==> r.Ok? && Tables() == old(Tables())
      ensures r == Err(DrainCompletionRequired) <==>
        && version in old(versions) && old(versions)[version].retired.None?
        && (old(versions)[version].writeDisabled.None? || old(versions)[version].drained.None?)
      ensures r == Err(RemovalWindowNotElapsed) <==>
        && version in old(versions) && old(versions)[version].retired.None?
        && old(versions)[version].writeDisabled.Some? && old(versions)[version].drained.Some?
        && checkNow < old(versions)[version].drained.value + 86_700
      ensures version !in old(versions) ==> r == Err(UnknownVersion)
      ensures version in old(versions) && old(versions)[version].retired.None?
              && old(versions)[version].writeDisabled.Some? && old(versions)[version].drained.Some?
              && old(versions)[version].drained.value + 86_700 <= checkNow ==>
        && (r == Err(UnknownVersion) <==> active !in old(versions))
        && (r == Err(ActiveReplacementUnavailable) <==>
              && active in old(versions)
              && !(old(versions)[active].writeDisabled.None? && old(versions)[active].retired.None?))
      ensures r.Err? ==> Tables() == old(Tables())
      // What a retirement leaves: the mark, none of the version's results, and everything else; once and for all.
      ensures r.Ok? && old(versions)[version].retired.None? ==> RetiredFrom(old(Tables()), Tables(), version, now)
      ensures r.Ok? ==> forall a, c, t :: RetireCall(Tables(), version, a, keyring, c, t) == Ok(Tables())
    {
      if version !in versions { return Err(UnknownVersion); }
      var row := versions[version];
      if row.retired.Some? { return Ok(()); }
      if row.writeDisabled.None? || row.drained.None? { return Err(DrainCompletionRequired); }
      if checkNow < row.drained.value + REMOVAL_WINDOW_SECONDS { return Err(RemovalWindowNotElapsed); }
      if active !in versions { return Err(UnknownVersion); }
      if !versions[active].Writable() { return Err(ActiveReplacementUnavailable); }
      r := RetireVersion(version, active, now);
    }
  }
}
