/** Every step of a run keeps the invariant of IdempotencyRuns. */
module IdempotencyHistory {
  import opened Common
  import opened ResponseCodec
  import opened IdempotencyModel
  import opened IdempotencyTransactions
  import opened IdempotencyTables
  import opened IdempotencyRuns

  // ---- the tables move on -------------------------------------------------------------------

  lemma ReadyStays(before: Db, after: Db, kr: Option<Keyring>)
    requires Evolves(before, after) && Ready(before, kr)
    ensures Ready(after, kr)
  {
    hide ValidKeyring;
    if kr.Some? {
      forall k | k in kr.value.keys ensures LabelHeld(after, k) {
        assert LabelHeld(before, k);
        assert VersionEvolves(before.versions[k.version], after.versions[k.version]);
      }
    }
  }

  lemma SeenStays(before: Db, after: Db, version: Label, now: Epoch)
    requires Evolves(before, after) && Seen(before, version, now)
    ensures Seen(after, version, now)
  {
    assert VersionEvolves(before.versions[version], after.versions[version]);
  }

  lemma RingStaysSeen(before: Db, after: Db, kr: Option<Keyring>, now: Epoch)
    requires Evolves(before, after) && RingSeen(before, kr, now)
    ensures RingSeen(after, kr, now)
  {
    hide Evolves;
    hide Seen;
    if kr.Some? {
      forall k | k in kr.value.keys ensures Seen(after, k.version, now) { SeenStays(before, after, k.version, now); }
    }
  }

  lemma PcStaysOk(before: Db, after: Db, clock: Epoch, sealings: seq<Sealing>, pc: Pc)
    requires Evolves(before, after) && PcOk(before, clock, sealings, pc)
    ensures PcOk(after, clock, sealings, pc)
  {
    hide Ready;
    hide RingSeen;
    match pc
    case Looking(kr, _, now) =>
      ReadyStays(before, after, kr);
      RingStaysSeen(before, after, kr, now);
    case Reserving(kr, _, now) =>
      ReadyStays(before, after, kr);
      RingStaysSeen(before, after, kr, now);
    case Disabling(version, _, now) => SeenStays(before, after, version, now);
    case Holding(kr, _, _) => ReadyStays(before, after, kr);
    case Rechecking(kr, _, _, _) => ReadyStays(before, after, kr);
    case Claiming(kr, _, _) => ReadyStays(before, after, kr);
    case Claimed(kr, _, res) =>
      ReadyStays(before, after, kr);
      assert NonceEvolves(before.ledger[NonceOf(res)], after.ledger[NonceOf(res)]);
    case _ =>
  }

  lemma SealingStaysOk(before: Db, after: Db, s: Sealing)
    requires Evolves(before, after) && SealingOk(before, s)
    ensures SealingOk(after, s)
  {
    assert VersionEvolves(before.versions[s.version], after.versions[s.version]);
    assert NonceEvolves(before.ledger[NonceId(s.version, s.nonce)], after.ledger[NonceId(s.version, s.nonce)]);
  }

  lemma StoredStaysOk(before: Db, after: Db, commit: Commit)
    requires Evolves(before, after) && StoredOk(before, commit)
    ensures StoredOk(after, commit)
  {
    hide SealedFor;
    if commit.stored.Some? {
      var v := commit.stored.value.version;
      assert VersionEvolves(before.versions[v], after.versions[v]);
    }
  }

  lemma CallersStay(w: World, db: Db)
    requires CallersOk(w) && Evolves(w.db, db)
    ensures CallersOk(w.(db := db))
  {
    hide Evolves;
    hide PcOk;
    var after := w.(db := db);
    forall c | c in after.callers ensures PcOk(db, after.clock, after.sealings, after.callers[c]) {
      PcStaysOk(w.db, db, w.clock, w.sealings, w.callers[c]);
    }
  }

  lemma HistoryStays(w: World, db: Db)
    requires HistoryOk(w) && Evolves(w.db, db)
    requires forall r | r in w.db.results && r.expires > w.clock :: r in db.results
    requires forall r | r in db.results :: r in w.db.results
    ensures HistoryOk(w.(db := db))
  {
    hide Evolves;
    hide SealingOk;
    hide StoredOk;
    hide CommittedRow;
    hide ReplayOk;
    var after := w.(db := db);
    forall s | s in after.sealings ensures SealingOk(db, s) { SealingStaysOk(w.db, db, s); }
    forall k | k in after.commits ensures StoredOk(db, k) { StoredStaysOk(w.db, db, k); }
  }

  /** A transaction that stores nothing new and deletes nothing live keeps the whole history right. */
  lemma TablesStep(w: World, db: Db)
    requires Inv(w) && TablesOk(db, w.clock) && Evolves(w.db, db)
    requires forall r | r in w.db.results && r.expires > w.clock :: r in db.results
    requires forall r | r in db.results :: r in w.db.results
    ensures Inv(w.(db := db))
  {
    hide TablesOk;
    hide Evolves;
    hide CallersOk;
    hide HistoryOk;
    CallersStay(w, db);
    HistoryStays(w, db);
  }

  // ---- callers move on ----------------------------------------------------------------------

  predicate ClaimUnheld(callers: map<nat, Pc>, c: nat, pc: Pc) {
    pc.Claimed? ==> forall d | d in callers && d != c && callers[d].Claimed? ::
      NonceOf(callers[d].res) != NonceOf(pc.res)
  }

  lemma CallerStep(w: World, c: nat, pc: Pc)
    requires Inv(w) && PcOk(w.db, w.clock, w.sealings, pc) && ClaimUnheld(w.callers, c, pc)
    ensures Inv(w.Go(c, pc))
  {
    hide TablesOk;
    hide PcOk;
    hide SealingOk;
    hide StoredOk;
    hide ReplayOk;
    hide CommittedRow;
  }

  lemma ReplayStep(w: World, inv: Invocation, response: Response, seenAt: Epoch, k: Commit)
    requires Inv(w) && k in w.commits && AnswersFrom(Replay(inv, response, seenAt), k)
    ensures Inv(w.Replayed(inv, response, seenAt))
  {
    hide TablesOk;
    hide PcOk;
    hide SealingOk;
    hide StoredOk;
    hide CommittedRow;
    hide AnswersFrom;
  }

  lemma TickStep(w: World, to: Epoch)
    requires Inv(w) && w.clock <= to
    ensures Inv(w.(clock := to))
  {
    hide TablesOk;
    hide SealingOk;
    hide StoredOk;
    hide ReplayOk;
    hide CommittedRow;
    TablesOkLater(w.db, w.clock, to);
    var after := w.(clock := to);
    assert CallersOk(after) by {
      hide Ready;
      forall c | c in after.callers ensures PcOk(after.db, to, after.sealings, after.callers[c]) {
        assert PcOk(w.db, w.clock, w.sealings, w.callers[c]);
      }
    }
  }

  // ---- lookups ------------------------------------------------------------------------------

  /** Whatever an unaltered row replays is what was sealed into it, to the fingerprint it was sealed for. */
  lemma ReplayIsSealedResponse(inv: Invocation, row: ResultRow, material: Bytes, sealed: Response, kr: Option<Keyring>,
                               now: Epoch)
    requires SealedFor(row, material, sealed) && row.id == inv.id && Classify(inv, Some(row), kr, now).Ok?
    requires Classify(inv, Some(row), kr, now).value.Some?
    ensures Classify(inv, Some(row), kr, now) == Ok(Some(sealed)) && row.fingerprint == inv.fingerprint
    ensures now < row.expires
  {
    hide OpenResult;
    hide EncodePlaintext;
    hide DecodePlaintext;
    hide RowAad;
    OpenSealed(kr, row, material, sealed);
    PlaintextRoundTrip(sealed);
  }

  lemma ReplayHasACommit(w: World, inv: Invocation, kr: Option<Keyring>, now: Epoch, response: Response)
    returns (k: Commit)
    requires Inv(w) && Classify(inv, LoadResult(w.db.results, inv.id), kr, now) == Ok(Some(response))
    ensures k in w.commits && AnswersFrom(Replay(inv, response, now), k)
  {
    hide TablesOk;
    hide CallersOk;
    hide SealedFor;
    hide Classify;
    assert LoadResult(w.db.results, inv.id).Some? by { EmptyLookupProceeds(inv, kr, now); }
    var row := LoadResult(w.db.results, inv.id).value;
    assert CommittedRow(w.commits, row);
    k :| k in w.commits && k.stored == Some(row);
    assert StoredOk(w.db, k);
    ReplayIsSealedResponse(inv, row, w.db.versions[row.version].commitment.material, k.response, kr, now);
  }

  lemma EmptyLookupProceeds(inv: Invocation, kr: Option<Keyring>, now: Epoch)
    ensures Classify(inv, None, kr, now) ==
      if ValidOwner(inv.ReservationOwner()) then Ok(None) else Err(WriteUnavailable)
  {
  }

  lemma LookupKeeps(w: World, c: nat, inv: Invocation, kr: Option<Keyring>, now: Epoch, proceed: Pc)
    requires Inv(w) && PcOk(w.db, w.clock, w.sealings, proceed) && !proceed.Claimed?
    ensures Inv(AfterLookup(w, c, inv, kr, now, proceed))
  {
    hide Inv;
    hide PcOk;
    hide Classify;
    match Classify(inv, LoadResult(w.db.results, inv.id), kr, now)
    case Err(_) =>
      IdleIsOk(w);
      CallerStep(w, c, Idle);
    case Ok(None) => CallerStep(w, c, proceed);
    case Ok(Some(response)) =>
      var k := ReplayHasACommit(w, inv, kr, now, response);
      IdleIsOk(w);
      CallerStep(w, c, Idle);
      ReplayStep(w.Go(c, Idle), inv, response, now, k);
  }

  lemma IdleIsOk(w: World)
    ensures PcOk(w.db, w.clock, w.sealings, Idle)
  {
  }

  // ---- reservations and claims --------------------------------------------------------------

  lemma OnlyTheActiveIsDisabled(db: Db, kr: Option<Keyring>, inv: Invocation, now: Epoch, nonce: Option<Bytes>)
    requires Ready(db, kr) && RingSeen(db, kr, now)
    ensures var (after, outcome) := Reserve(db, kr, inv, now, nonce);
            outcome.DisableNeeded? ==> after == db && Seen(db, outcome.version, now)
  {
  }

  lemma ReserveStepKeeps(w: World, c: nat, inv: Invocation, kr: Option<Keyring>, now: Epoch, nonce: Option<Bytes>)
    requires Inv(w) && Ready(w.db, kr) && RingSeen(w.db, kr, now) && now <= w.clock
    ensures Inv(AfterReserve(w, c, inv, kr, now, nonce))
  {
    hide TablesOk;
    hide CallersOk;
    hide ClaimsApart;
    hide HistoryOk;
    hide RingSeen;
    hide Seen;
    hide Reserve;
    hide Evolves;
    hide Ready;
    hide LedgerHolds;
    OnlyTheActiveIsDisabled(w.db, kr, inv, now, nonce);
    var (db, outcome) := Reserve(w.db, kr, inv, now, nonce);
    ReserveKeeps(w.db, kr, inv, now, nonce, w.clock);
    ReserveEvolves(w.db, kr, inv, now, nonce);
    TablesStep(w, db);
    ReadyStays(w.db, db, kr);
    var pc := match outcome
              case Reserved(res) => Holding(kr, inv, res)
              case DisableNeeded(version, reason) => Disabling(version, reason, now)
              case Refused => Idle;
    CallerStep(w.(db := db), c, pc);
  }

  /** An unclaimed nonce has not been sealed under, and nobody holds a claim on it. */
  lemma UnclaimedIsUnused(w: World, c: nat, id: NonceId)
    requires Inv(w) && !ClaimTaken(w.db, id)
    ensures Unsealed(w.sealings, id)
    ensures forall d | d in w.callers && w.callers[d].Claimed? :: NonceOf(w.callers[d].res) != id
  {
    hide TablesOk;
    hide Ready;
    forall s | s in w.sealings ensures NonceId(s.version, s.nonce) != id { assert SealingOk(w.db, s); }
    forall d | d in w.callers && w.callers[d].Claimed? ensures NonceOf(w.callers[d].res) != id {
      assert PcOk(w.db, w.clock, w.sealings, w.callers[d]);
    }
  }

  lemma ClaimStepKeeps(w: World, c: nat, inv: Invocation, kr: Option<Keyring>, res: Reservation, reported: bool)
    requires Inv(w) && Ready(w.db, kr)
    ensures Inv(AfterClaim(w, c, inv, kr, res, reported))
  {
    hide TablesOk;
    hide CallersOk;
    hide HistoryOk;
    hide Ready;
    hide Evolves;
    match Claim(w.db, inv, res, w.clock)
    case Err(_) => CallerStep(w, c, Idle);
    case Ok(db) =>
      UnclaimedIsUnused(w, c, NonceOf(res));
      ClaimKeeps(w.db, inv, res, w.clock);
      TablesStep(w, db);
      ReadyStays(w.db, db, kr);
      CallerStep(w.(db := db), c, if reported then Claimed(kr, inv, res) else Idle);
  }

  // ---- completion ---------------------------------------------------------------------------

  function Encrypted(w: World, s: Sealing): World { w.(sealings := w.sealings + [s]) }

  lemma SealingStep(w: World, s: Sealing)
    requires Inv(w) && SealingOk(w.db, s) && Unsealed(w.sealings, NonceId(s.version, s.nonce))
    requires forall d | d in w.callers && w.callers[d].Claimed? ::
      NonceOf(w.callers[d].res) != NonceId(s.version, s.nonce)
    ensures Inv(Encrypted(w, s))
  {
    hide TablesOk;
    hide Ready;
    hide SealingOk;
    hide StoredOk;
    hide ReplayOk;
    hide CommittedRow;
    var after := Encrypted(w, s);
    forall d | d in after.callers ensures PcOk(after.db, after.clock, after.sealings, after.callers[d]) {
      assert PcOk(w.db, w.clock, w.sealings, w.callers[d]);
    }
  }

  function Committed(w: World, db: Db, commit: Commit): World { w.(db := db, commits := w.commits + [commit]) }

  /** What the invariant asks of a commit taking the tables from w.db to db. */
  ghost predicate MayCommit(w: World, db: Db, commit: Commit) {
    && TablesOk(db, w.clock) && Evolves(w.db, db)
    && commit.at == w.clock && StoredOk(db, commit)
    && (commit.stored.Some? ==> commit.stored.value in db.results)
    && (forall r | r in w.db.results && r.expires > w.clock :: r in db.results)
    && (forall r | r in db.results && r !in w.db.results :: commit.stored == Some(r))
    && (forall r | r in w.db.results && r.id == commit.id :: r.expires <= w.clock)
  }

  lemma CommitKeepsTimeline(w: World, db: Db, commit: Commit)
    requires Inv(w) && MayCommit(w, db, commit)
    ensures CommitsApart(w.commits + [commit]) && LiveKept(w.commits + [commit], db.results, w.clock)
  {
    hide TablesOk;
    hide Evolves;
    hide CallersOk;
    hide SealedFor;
    hide ReplayOk;
    hide OnlyCommitted;
    hide SealingsApart;
    forall k | k in w.commits && k.id == commit.id && k.stored.Some? ensures k.stored.value.expires <= w.clock {
      assert StoredOk(w.db, k);
    }
  }

  lemma CommitKeepsHistory(w: World, db: Db, commit: Commit)
    requires Inv(w) && MayCommit(w, db, commit)
    ensures HistoryOk(Committed(w, db, commit))
  {
    CommitKeepsTimeline(w, db, commit);
    CommitKeepsRows(w, db, commit);
    hide TablesOk;
    hide Evolves;
    hide CallersOk;
    hide SealingOk;
    hide StoredOk;
    hide CommitsApart;
    hide LiveKept;
    hide SealingsApart;
    hide OnlyCommitted;
    hide ReplayOk;
    var after := Committed(w, db, commit);
    forall s | s in after.sealings ensures SealingOk(db, s) { SealingStaysOk(w.db, db, s); }
    forall k | k in after.commits ensures StoredOk(db, k) { if k != commit { StoredStaysOk(w.db, db, k); } }
    forall p | p in after.replays ensures ReplayOk(after.commits, p) { ReplayStays(w.commits, commit, p); }
  }

  lemma CommitKeepsRows(w: World, db: Db, commit: Commit)
    requires OnlyCommitted(w.commits, w.db.results)
    requires forall r | r in db.results && r !in w.db.results :: commit.stored == Some(r)
    ensures OnlyCommitted(w.commits + [commit], db.results)
  {
    assert commit in w.commits + [commit];
    forall r | r in db.results ensures CommittedRow(w.commits + [commit], r) {
      if r in w.db.results { CommittedStays(w.commits, commit, r); }
    }
  }

  lemma CommittedStays(commits: seq<Commit>, commit: Commit, r: ResultRow)
    requires CommittedRow(commits, r)
    ensures CommittedRow(commits + [commit], r)
  {
    var k :| k in commits && k.stored == Some(r);
    assert k in commits + [commit];
  }

  lemma ReplayStays(commits: seq<Commit>, commit: Commit, p: Replay)
    requires ReplayOk(commits, p)
    ensures ReplayOk(commits + [commit], p)
  {
    hide AnswersFrom;
    var k :| k in commits && AnswersFrom(p, k);
    assert k in commits + [commit];
  }

  lemma CommitStep(w: World, db: Db, commit: Commit)
    requires Inv(w) && MayCommit(w, db, commit)
    ensures Inv(Committed(w, db, commit))
  {
    hide TablesOk;
    hide Evolves;
    hide CallersOk;
    hide HistoryOk;
    CommitKeepsHistory(w, db, commit);
    CallersStay(w, db);
    CallersIgnoreHistory(w.(db := db), Committed(w, db, commit));
  }

  lemma CallersIgnoreHistory(a: World, b: World)
    requires CallersOk(a) && a.db == b.db && a.clock == b.clock && a.callers == b.callers && a.sealings == b.sealings
    ensures CallersOk(b)
  {
    hide PcOk;
  }

  lemma KeyIsRegistered(db: Db, kr: Option<Keyring>, version: Label)
    requires Ready(db, kr) && DecryptionKey(kr, version).Some?
    ensures version in db.versions
    ensures db.versions[version].commitment == Commitment(DecryptionKey(kr, version).value.material)
  {
    assert LabelHeld(db, DecryptionKey(kr, version).value);
  }

  /** What a completing transaction of a claim holder hands to the history. */
  lemma CompletionFits(w: World, c: nat, outcome: Option<Outcome>)
    requires Inv(w) && w.PcOf(c).Claimed?
    ensures var pc := w.PcOf(c);
      var t := Complete(w.db, pc.keyring, pc.inv, pc.res, outcome, w.clock);
      && (t.sealing.Some? ==>
            && SealingOk(w.db, t.sealing.value)
            && NonceId(t.sealing.value.version, t.sealing.value.nonce) == NonceOf(pc.res))
      && (t.commit.Some? ==> MayCommit(w, t.db, t.commit.value))
      && (t.commit.None? ==> t.db == w.db)
  {
    hide TablesOk;
    hide Evolves;
    hide Complete;
    hide SealedFor;
    hide Ready;
    hide HistoryOk;
    hide Unsealed;
    var pc := w.PcOf(c);
    var t := Complete(w.db, pc.keyring, pc.inv, pc.res, outcome, w.clock);
    assert PcOk(w.db, w.clock, w.sealings, pc);
    assert UniqueResultIds(w.db.results) by { ResultsUnique(w.db, w.clock); }
    CompletionIsFaithful(w.db, pc.keyring, pc.inv, pc.res, outcome, w.clock);
    if t.sealing.Some? { KeyIsRegistered(w.db, pc.keyring, pc.res.version); }
    CompleteKeeps(w.db, pc.keyring, pc.inv, pc.res, outcome, w.clock);
  }

  lemma ResultsUnique(db: Db, clock: Epoch)
    requires TablesOk(db, clock)
    ensures UniqueResultIds(db.results)
  {
  }

  /** Without a commit, a reply with a response is a replay of the lookup inside the transaction. */
  lemma ReplyWithoutCommit(db: Db, kr: Option<Keyring>, inv: Invocation, res: Reservation, outcome: Option<Outcome>,
                           now: Epoch)
    requires var t := Complete(db, kr, inv, res, outcome, now); t.commit.None? && t.reply.Ok?
    ensures Classify(inv, LoadResult(db.results, inv.id), kr, now)
            == Ok(Some(Complete(db, kr, inv, res, outcome, now).reply.value))
  {
    hide Classify;
    hide SealOutcome;
  }

  /** A caller that gives up its claim frees nothing: nobody else holds that nonce. */
  lemma ClaimGivenUp(w: World, c: nat)
    requires Inv(w) && w.PcOf(c).Claimed?
    ensures Inv(w.Go(c, Idle)) && Unsealed(w.sealings, NonceOf(w.PcOf(c).res))
    ensures var after := w.Go(c, Idle);
            forall d | d in after.callers && after.callers[d].Claimed? ::
              NonceOf(after.callers[d].res) != NonceOf(w.PcOf(c).res)
  {
    hide TablesOk;
    hide HistoryOk;
    hide Ready;
    assert PcOk(w.db, w.clock, w.sealings, w.PcOf(c));
    hide CallersOk;
    CallerStep(w, c, Idle);
  }

  lemma CompleteStepKeeps(w: World, c: nat, outcome: Option<Outcome>, fate: Fate)
    requires Inv(w) && w.PcOf(c).Claimed?
    ensures var pc := w.PcOf(c); Inv(AfterComplete(w, c, pc.inv, pc.keyring, pc.res, outcome, fate))
  {
    hide Inv;
    hide MayCommit;
    hide SealingOk;
    hide Complete;
    hide AnswersFrom;
    hide Unsealed;
    hide Classify;
    var pc := w.PcOf(c);
    var t := Complete(w.db, pc.keyring, pc.inv, pc.res, outcome, w.clock);
    CompletionFits(w, c, outcome);
    ClaimGivenUp(w, c);
    var left := w.Go(c, Idle);
    var sealed := if t.sealing.Some? then Encrypted(left, t.sealing.value) else left;
    if t.sealing.Some? { SealingStep(left, t.sealing.value); }
    assert w.sealings + [] == w.sealings && w.commits + [] == w.commits;
    if !fate.Aborted? {
      if t.commit.Some? {
        assert MayCommit(sealed, t.db, t.commit.value) by { CommitIgnoresCallers(w, sealed, t.db, t.commit.value); }
        CommitStep(sealed, t.db, t.commit.value);
      } else if t.reply.Ok? && fate.Reported? {
        ReplyWithoutCommit(w.db, pc.keyring, pc.inv, pc.res, outcome, w.clock);
        var k := ReplayHasACommit(w, pc.inv, pc.keyring, w.clock, t.reply.value);
        ReplayStep(sealed, pc.inv, t.reply.value, w.clock, k);
      }
    }
  }

  lemma CommitIgnoresCallers(a: World, b: World, db: Db, commit: Commit)
    requires MayCommit(a, db, commit) && a.db == b.db && a.clock == b.clock
    ensures MayCommit(b, db, commit)
  {
  }

  // ---- every step ---------------------------------------------------------------------------

  /** A caller's position in its own invariant. */
  lemma PositionOk(w: World, c: nat)
    requires Inv(w)
    ensures PcOk(w.db, w.clock, w.sealings, w.PcOf(c))
  {
    hide TablesOk;
    hide HistoryOk;
    hide Ready;
  }

  lemma CallerStepKeeps(w: World, step: Step)
    requires Inv(w)
    requires step.LookUp? || step.ReserveNonce? || step.ClaimNonce? || step.CompleteCall?
    ensures Inv(Next(w, step))
  {
    PositionOk(w, step.caller);
    hide Inv;
    hide AfterLookup;
    hide AfterReserve;
    hide AfterClaim;
    hide AfterComplete;
    hide Ready;
    match step
    case LookUp(c) =>
      var pc := w.PcOf(c);
      if pc.Looking? {
        LookupKeeps(w, c, pc.inv, pc.keyring, pc.now, Reserving(pc.keyring, pc.inv, pc.now));
      } else if pc.Rechecking? {
        LookupKeeps(w, c, pc.inv, pc.keyring, pc.now, Claiming(pc.keyring, pc.inv, pc.res));
      }
    case ReserveNonce(c, nonce) =>
      var pc := w.PcOf(c);
      if pc.Reserving? { ReserveStepKeeps(w, c, pc.inv, pc.keyring, pc.now, nonce); }
    case ClaimNonce(c, reported) =>
      var pc := w.PcOf(c);
      if pc.Claiming? { ClaimStepKeeps(w, c, pc.inv, pc.keyring, pc.res, reported); }
    case CompleteCall(c, outcome, fate) =>
      if w.PcOf(c).Claimed? { CompleteStepKeeps(w, c, outcome, fate); }
  }

  lemma RingIsSeen(db: Db, kr: Option<Keyring>, clock: Epoch)
    requires TablesOk(db, clock) && Ready(db, kr)
    ensures RingSeen(db, kr, clock)
  {
    hide LedgerOk;
    hide ResultsOk;
    if kr.Some? {
      forall k | k in kr.value.keys ensures Seen(db, k.version, clock) {
        assert LabelHeld(db, k);
        assert LifecycleOk(db.versions[k.version], clock);
      }
    }
  }

  lemma PlainStepKeeps(w: World, step: Step)
    requires Inv(w)
    requires step.Execute? || step.CompleteAnew? || step.ReadClock? || step.Crash? || step.DisableAfterRefusal?
    ensures Inv(Next(w, step))
  {
    PositionOk(w, step.caller);
    hide Inv;
    hide Ready;
    hide WriteDisable;
    match step
    case Execute(c, kr, inv) =>
      if w.PcOf(c).Idle? && Ready(w.db, kr) {
        RingIsSeen(w.db, kr, w.clock);
        CallerStep(w, c, Looking(kr, inv, w.clock));
      }
    case CompleteAnew(c, kr, inv, res) =>
      if w.PcOf(c).Idle? && Ready(w.db, kr) { CallerStep(w, c, Holding(kr, inv, res)); }
    case ReadClock(c) =>
      var pc := w.PcOf(c);
      if pc.Holding? { CallerStep(w, c, Rechecking(pc.keyring, pc.inv, pc.res, w.clock)); }
    case Crash(c) => CallerStep(w, c, Idle);
    case DisableAfterRefusal(c) =>
      var pc := w.PcOf(c);
      if pc.Disabling? {
        DisableKeepsInv(w, pc.version, pc.reason, pc.now);
        CallerStep(w.(db := WriteDisable(w.db, pc.version, pc.reason, pc.now)), c, Idle);
      }
  }

  lemma DisableKeepsInv(w: World, version: Label, reason: Reason, now: Epoch)
    requires Inv(w) && now <= w.clock
    ensures Inv(w.(db := WriteDisable(w.db, version, reason, now)))
  {
    hide TablesOk;
    hide Evolves;
    hide WriteDisable;
    hide HistoryOk;
    hide CallersOk;
    WriteDisableKeeps(w.db, version, reason, now, w.clock);
    TablesStep(w, WriteDisable(w.db, version, reason, now));
  }

  lemma StoreStepKeeps(w: World, step: Step)
    requires Inv(w)
    requires step.Tick? || step.OpenStore? || step.Gc? || step.OperatorDisable? || step.Drain? || step.RetireKey?
    ensures Inv(Next(w, step))
  {
    hide TablesOk;
    hide Evolves;
    hide Ready;
    hide CallersOk;
    hide HistoryOk;
    hide WriteDisable;
    hide RetireTransaction;
    hide CollectGarbage;
    hide CompleteDrain;
    match step
    case Tick(to) => if w.clock <= to { TickStep(w, to); }
    case OpenStore(kr) =>
      if ValidKeyring(kr) && RegisterKeys(w.db, kr.keys, w.clock).Ok? {
        RegisterKeeps(w.db, kr.keys, w.clock);
        TablesStep(w, RegisterKeys(w.db, kr.keys, w.clock).value);
      }
    case Gc(kr, limit) =>
      if Ready(w.db, kr) {
        GcKeeps(w.db, kr, limit, w.clock);
        TablesStep(w, CollectGarbage(w.db, kr, limit, w.clock).0);
      }
    case OperatorDisable(version, reason, now) => if now <= w.clock { DisableKeepsInv(w, version, reason, now); }
    case Drain(version) =>
      DrainKeeps(w.db, version, w.clock);
      TablesStep(w, CompleteDrain(w.db, version, w.clock));
    case RetireKey(version, active, kr) =>
      if Ready(w.db, kr) && RetireTransaction(w.db, version, active, kr, w.clock).Ok? {
        RetireKeeps(w.db, version, active, kr, w.clock);
        TablesStep(w, RetireTransaction(w.db, version, active, kr, w.clock).value);
      }
  }

  lemma StepKeeps(w: World, step: Step)
    requires Inv(w)
    ensures Inv(Next(w, step))
  {
    hide Inv;
    hide Next;
    match step
    case LookUp(_) => CallerStepKeeps(w, step);
    case ReserveNonce(_, _) => CallerStepKeeps(w, step);
    case ClaimNonce(_, _) => CallerStepKeeps(w, step);
    case CompleteCall(_, _, _) => CallerStepKeeps(w, step);
    case Execute(_, _, _) => PlainStepKeeps(w, step);
    case CompleteAnew(_, _, _, _) => PlainStepKeeps(w, step);
    case ReadClock(_) => PlainStepKeeps(w, step);
    case Crash(_) => PlainStepKeeps(w, step);
    case DisableAfterRefusal(_) => PlainStepKeeps(w, step);
    case _ => StoreStepKeeps(w, step);
  }

  lemma {:induction false} RunKeeps(w: World, steps: seq<Step>)
    requires Inv(w)
    ensures Inv(Run(w, steps))
    decreases |steps|
  {
    hide Inv;
    hide Next;
    if steps != [] {
      StepKeeps(w, steps[0]);
      RunKeeps(Next(w, steps[0]), steps[1..]);
    }
  }

  /** The invariant holds in every state any run reaches from an empty database. */
  lemma Reachable(t0: Epoch, steps: seq<Step>)
    ensures Inv(Run(Start(t0), steps))
  {
    assert Inv(Start(t0));
    RunKeeps(Start(t0), steps);
  }

  // ---- two-state facts over runs ------------------------------------------------------------

  /** Histories only grow. */
  predicate Extends(a: World, b: World) {
    a.clock <= b.clock && a.commits <= b.commits && a.sealings <= b.sealings && a.replays <= b.replays
  }

  lemma LookupEvolves(w: World, c: nat, inv: Invocation, kr: Option<Keyring>, now: Epoch, proceed: Pc)
    ensures Evolves(w.db, AfterLookup(w, c, inv, kr, now, proceed).db)
  {
    hide Classify;
  }

  lemma AfterReserveEvolves(w: World, c: nat, inv: Invocation, kr: Option<Keyring>, now: Epoch, nonce: Option<Bytes>)
    ensures Evolves(w.db, AfterReserve(w, c, inv, kr, now, nonce).db)
  {
    hide Evolves;
    hide Reserve;
    ReserveEvolves(w.db, kr, inv, now, nonce);
  }

  lemma AfterClaimEvolves(w: World, c: nat, inv: Invocation, kr: Option<Keyring>, res: Reservation, reported: bool)
    requires TablesOk(w.db, w.clock)
    ensures Evolves(w.db, AfterClaim(w, c, inv, kr, res, reported).db)
  {
    EvolvesSame(w.db);
    hide Evolves;
    hide Claim;
    if Claim(w.db, inv, res, w.clock).Ok? { ClaimKeeps(w.db, inv, res, w.clock); }
  }

  lemma AfterCompleteEvolves(w: World, c: nat, inv: Invocation, kr: Option<Keyring>, res: Reservation,
                             outcome: Option<Outcome>, fate: Fate)
    requires TablesOk(w.db, w.clock)
    ensures Evolves(w.db, AfterComplete(w, c, inv, kr, res, outcome, fate).db)
  {
    EvolvesSame(w.db);
    hide Evolves;
    hide TablesOk;
    hide Complete;
    CompleteKeeps(w.db, kr, inv, res, outcome, w.clock);
  }

  lemma LookUpEvolves(w: World, c: nat)
    ensures Evolves(w.db, Next(w, LookUp(c)).db)
  {
    EvolvesSame(w.db);
    hide Evolves;
    hide AfterLookup;
    var pc := w.PcOf(c);
    if pc.Looking? {
      LookupEvolves(w, c, pc.inv, pc.keyring, pc.now, Reserving(pc.keyring, pc.inv, pc.now));
    } else if pc.Rechecking? {
      LookupEvolves(w, c, pc.inv, pc.keyring, pc.now, Claiming(pc.keyring, pc.inv, pc.res));
    }
  }

  lemma CallerStepEvolves(w: World, step: Step)
    requires Inv(w)
    requires step.LookUp? || step.ReserveNonce? || step.ClaimNonce? || step.CompleteCall? || step.DisableAfterRefusal?
    ensures Evolves(w.db, Next(w, step).db)
  {
    PositionFacts(w, step.caller);
    hide Inv;
    if step.LookUp? { LookUpEvolves(w, step.caller); } else { WritingStepEvolves(w, step); }
  }

  lemma WritingStepEvolves(w: World, step: Step)
    requires step.ReserveNonce? || step.ClaimNonce? || step.CompleteCall? || step.DisableAfterRefusal?
    requires TablesOk(w.db, w.clock) && (w.PcOf(step.caller).Disabling? ==> w.PcOf(step.caller).now <= w.clock)
    ensures Evolves(w.db, Next(w, step).db)
  {
    EvolvesSame(w.db);
    hide Evolves;
    hide TablesOk;
    hide AfterReserve;
    hide AfterClaim;
    hide AfterComplete;
    hide WriteDisable;
    var pc := w.PcOf(step.caller);
    match step
    case ReserveNonce(c, nonce) =>
      if pc.Reserving? { AfterReserveEvolves(w, c, pc.inv, pc.keyring, pc.now, nonce); }
    case ClaimNonce(c, reported) =>
      if pc.Claiming? { AfterClaimEvolves(w, c, pc.inv, pc.keyring, pc.res, reported); }
    case CompleteCall(c, outcome, fate) =>
      if pc.Claimed? { AfterCompleteEvolves(w, c, pc.inv, pc.keyring, pc.res, outcome, fate); }
    case DisableAfterRefusal(c) =>
      if pc.Disabling? { WriteDisableKeeps(w.db, pc.version, pc.reason, pc.now, w.clock); }
  }

  /** The table part of a caller's position. */
  lemma PositionFacts(w: World, c: nat)
    requires Inv(w)
    ensures TablesOk(w.db, w.clock) && (w.PcOf(c).Disabling? ==> w.PcOf(c).now <= w.clock)
  {
    hide TablesOk;
    PositionOk(w, c);
  }

  lemma StoreStepEvolves(w: World, step: Step)
    requires TablesOk(w.db, w.clock)
    requires step.OpenStore? || step.Gc? || step.OperatorDisable? || step.Drain? || step.RetireKey?
    ensures Evolves(w.db, Next(w, step).db)
  {
    EvolvesSame(w.db);
    hide Evolves;
    hide TablesOk;
    hide Ready;
    hide WriteDisable;
    hide RetireTransaction;
    hide CollectGarbage;
    hide CompleteDrain;
    hide RegisterKeys;
    match step
    case OpenStore(kr) =>
      if ValidKeyring(kr) && RegisterKeys(w.db, kr.keys, w.clock).Ok? { RegisterKeeps(w.db, kr.keys, w.clock); }
    case Gc(kr, limit) => GcKeeps(w.db, kr, limit, w.clock);
    case OperatorDisable(version, reason, now) =>
      if now <= w.clock { WriteDisableKeeps(w.db, version, reason, now, w.clock); }
    case Drain(version) => DrainKeeps(w.db, version, w.clock);
    case RetireKey(version, active, kr) =>
      if RetireTransaction(w.db, version, active, kr, w.clock).Ok? { RetireKeeps(w.db, version, active, kr, w.clock); }
  }

  lemma StepEvolves(w: World, step: Step)
    requires Inv(w)
    ensures Evolves(w.db, Next(w, step).db)
  {
    EvolvesSame(w.db);
    hide Evolves;
    hide TablesOk;
    hide CallersOk;
    hide HistoryOk;
    hide Ready;
    match step
    case Tick(_) =>
    case Execute(_, _, _) =>
    case CompleteAnew(_, _, _, _) =>
    case ReadClock(_) =>
    case Crash(_) =>
    case LookUp(_) => CallerStepEvolves(w, step);
    case ReserveNonce(_, _) => CallerStepEvolves(w, step);
    case ClaimNonce(_, _) => CallerStepEvolves(w, step);
    case CompleteCall(_, _, _) => CallerStepEvolves(w, step);
    case DisableAfterRefusal(_) => CallerStepEvolves(w, step);
    case _ => StoreStepEvolves(w, step);
  }

  lemma StepExtends(w: World, step: Step)
    ensures Extends(w, Next(w, step))
  {
    hide Classify;
    hide Complete;
    hide Claim;
    hide Reserve;
    hide Ready;
    hide RetireTransaction;
    hide CollectGarbage;
  }

  lemma {:induction false} RunEvolves(w: World, steps: seq<Step>)
    requires Inv(w)
    ensures Evolves(w.db, Run(w, steps).db) && Extends(w, Run(w, steps))
    decreases |steps|
  {
    hide Inv;
    hide Next;
    if steps == [] {
      EvolvesSame(w.db);
    } else {
      var next := Next(w, steps[0]);
      StepKeeps(w, steps[0]);
      StepEvolves(w, steps[0]);
      StepExtends(w, steps[0]);
      RunEvolves(next, steps[1..]);
      EvolvesTransitive(w.db, next.db, Run(next, steps[1..]).db);
    }
  }
}
