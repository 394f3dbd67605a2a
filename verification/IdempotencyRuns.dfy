/** Runs: any number of callers, garbage collection and key lifecycle operations, interleaved one
    transaction at a time on a clock that never goes back, with a history of what happened. */
module IdempotencyRuns {
  import opened Common
  import opened ResponseCodec
  import opened IdempotencyModel
  import opened IdempotencyTransactions
  import opened IdempotencyTables

  /** Where one caller of the executor stands between two of its transactions. */
  datatype Pc =
    | Idle
    | Looking(keyring: Option<Keyring>, inv: Invocation, now: Epoch)
    | Reserving(keyring: Option<Keyring>, inv: Invocation, now: Epoch)
    | Disabling(version: Label, reason: Reason, now: Epoch)
    | Holding(keyring: Option<Keyring>, inv: Invocation, res: Reservation)
    | Rechecking(keyring: Option<Keyring>, inv: Invocation, res: Reservation, now: Epoch)
    | Claiming(keyring: Option<Keyring>, inv: Invocation, res: Reservation)
    | Claimed(keyring: Option<Keyring>, inv: Invocation, res: Reservation)

  /** A response handed out from the store instead of from a mutation; `seenAt` is the epoch it was judged by. */
  datatype Replay = Replay(inv: Invocation, response: Response, seenAt: Epoch)

  datatype World = World(
    db: Db,
    clock: Epoch,
    callers: map<nat, Pc>,
    sealings: seq<Sealing>,
    commits: seq<Commit>,
    replays: seq<Replay>)
  {
    function PcOf(c: nat): Pc { if c in callers then callers[c] else Idle }

    function Go(c: nat, pc: Pc): World { this.(callers := callers[c := pc]) }

    function Replayed(inv: Invocation, response: Response, seenAt: Epoch): World {
      this.(replays := replays + [Replay(inv, response, seenAt)])
    }
  }

  /** How the database ends a completing transaction: committed and reported, committed with an ambiguous
      error, or rolled back although its body succeeded. */
  datatype Fate = Reported | Ambiguous | Aborted

  datatype Step =
    | Tick(to: Epoch)
    | OpenStore(ring: Keyring)
    | Execute(caller: nat, keyring: Option<Keyring>, inv: Invocation)
    // complete() called directly, with any reservation whatever: again, borrowed or made up
    | CompleteAnew(caller: nat, keyring: Option<Keyring>, inv: Invocation, res: Reservation)
    | LookUp(caller: nat)
    | ReserveNonce(caller: nat, nonce: Option<Bytes>)
    | DisableAfterRefusal(caller: nat)
    | ReadClock(caller: nat)
    | ClaimNonce(caller: nat, reported: bool)
    | CompleteCall(caller: nat, outcome: Option<Outcome>, fate: Fate)
    | Crash(caller: nat)
    | Gc(keyring: Option<Keyring>, limit: int)
    | OperatorDisable(version: Label, reason: Reason, now: Epoch)
    | Drain(version: Label)
    | RetireKey(version: Label, active: Label, keyring: Option<Keyring>)

  /** A process works with no keyring or with one its store has registered. */
  predicate Ready(db: Db, kr: Option<Keyring>) { kr.Some? ==> Registered(db, kr.value) }

  function AfterLookup(w: World, c: nat, inv: Invocation, kr: Option<Keyring>, now: Epoch, proceed: Pc): World {
    match Classify(inv, LoadResult(w.db.results, inv.id), kr, now)
    case Err(_) => w.Go(c, Idle)
    case Ok(Some(response)) => w.Go(c, Idle).Replayed(inv, response, now)
    case Ok(None) => w.Go(c, proceed)
  }

  function AfterReserve(w: World, c: nat, inv: Invocation, kr: Option<Keyring>, now: Epoch, nonce: Option<Bytes>): World
  {
    var (db, outcome) := Reserve(w.db, kr, inv, now, nonce);
    var pc := match outcome
              case Reserved(res) => Holding(kr, inv, res)
              case DisableNeeded(version, reason) => Disabling(version, reason, now)
              case Refused => Idle;
    w.(db := db).Go(c, pc)
  }

  function AfterClaim(w: World, c: nat, inv: Invocation, kr: Option<Keyring>, res: Reservation, reported: bool): World {
    match Claim(w.db, inv, res, w.clock)
    case Err(_) => w.Go(c, Idle)
    case Ok(db) => w.(db := db).Go(c, if reported then Claimed(kr, inv, res) else Idle)
  }

  /** What reached the cipher stays in the history however the transaction ends. */
  function AfterComplete(w: World, c: nat, inv: Invocation, kr: Option<Keyring>, res: Reservation,
                         outcome: Option<Outcome>, fate: Fate): World
  {
    var t := Complete(w.db, kr, inv, res, outcome, w.clock);
    var sealed := w.(sealings := w.sealings + if t.sealing.Some? then [t.sealing.value] else []).Go(c, Idle);
    if fate.Aborted? then sealed
    else
      var done := sealed.(db := t.db, commits := w.commits + if t.commit.Some? then [t.commit.value] else []);
      if t.commit.None? && t.reply.Ok? && fate.Reported? then done.Replayed(inv, t.reply.value, w.clock) else done
  }

  function Next(w: World, step: Step): World {
    match step
    case Tick(to) => if w.clock <= to then w.(clock := to) else w
    case OpenStore(kr) =>
      if !ValidKeyring(kr) then w
      else (match RegisterKeys(w.db, kr.keys, w.clock) case Ok(db) => w.(db := db) case Err(_) => w)
    case Execute(c, kr, inv) =>
      if w.PcOf(c).Idle? && Ready(w.db, kr) then w.Go(c, Looking(kr, inv, w.clock)) else w
    case CompleteAnew(c, kr, inv, res) =>
      if w.PcOf(c).Idle? && Ready(w.db, kr) then w.Go(c, Holding(kr, inv, res)) else w
    case LookUp(c) =>
      (match w.PcOf(c)
       case Looking(kr, inv, now) => AfterLookup(w, c, inv, kr, now, Reserving(kr, inv, now))
       case Rechecking(kr, inv, res, now) => AfterLookup(w, c, inv, kr, now, Claiming(kr, inv, res))
       case _ => w)
    case ReserveNonce(c, nonce) =>
      (match w.PcOf(c)
       case Reserving(kr, inv, now) => AfterReserve(w, c, inv, kr, now, nonce)
       case _ => w)
    case DisableAfterRefusal(c) =>
      (match w.PcOf(c)
       case Disabling(version, reason, now) => w.(db := WriteDisable(w.db, version, reason, now)).Go(c, Idle)
       case _ => w)
    case ReadClock(c) =>
      (match w.PcOf(c)
       case Holding(kr, inv, res) => w.Go(c, Rechecking(kr, inv, res, w.clock))
       case _ => w)
    case ClaimNonce(c, reported) =>
      (match w.PcOf(c)
       case Claiming(kr, inv, res) => AfterClaim(w, c, inv, kr, res, reported)
       case _ => w)
    case CompleteCall(c, outcome, fate) =>
      (match w.PcOf(c)
       case Claimed(kr, inv, res) => AfterComplete(w, c, inv, kr, res, outcome, fate)
       case _ => w)
    case Crash(c) => w.Go(c, Idle)
    case Gc(kr, limit) =>
      if Ready(w.db, kr) then w.(db := CollectGarbage(w.db, kr, limit, w.clock).0) else w
    case OperatorDisable(version, reason, now) =>
      if now <= w.clock then w.(db := WriteDisable(w.db, version, reason, now)) else w
    case Drain(version) => w.(db := CompleteDrain(w.db, version, w.clock))
    case RetireKey(version, active, kr) =>
      if !Ready(w.db, kr) then w
      else (match RetireTransaction(w.db, version, active, kr, w.clock) case Ok(db) => w.(db := db) case Err(_) => w)
  }

  function Run(w: World, steps: seq<Step>): World
    decreases |steps|
  {
    if steps == [] then w else Run(Next(w, steps[0]), steps[1..])
  }

  /** An empty database at any time. */
  function Start(clock: Epoch): World {
    World(Db(map[], map[], []), clock, map[], [], [], [])
  }

  // ---- runs ---------------------------------------------------------------------------------

  lemma OneStep(w: World, step: Step)
    ensures Run(w, [step]) == Next(w, step)
  {
    hide Next;
    assert Run(Next(w, step), []) == Next(w, step);
  }

  /** A run may be cut anywhere. */
  lemma {:induction false} InParts(w: World, a: seq<Step>, b: seq<Step>)
    ensures Run(w, a + b) == Run(Run(w, a), b)
    decreases |a|
  {
    hide Next;
    if a == [] {
      assert a + b == b;
    } else {
      assert (a + b)[0] == a[0] && (a + b)[1..] == a[1..] + b;
      InParts(Next(w, a[0]), a[1..], b);
    }
  }

  // ---- the invariant ------------------------------------------------------------------------

  predicate PcOk(db: Db, clock: Epoch, sealings: seq<Sealing>, pc: Pc) {
    match pc
    case Idle => true
    case Looking(kr, _, now) => Ready(db, kr) && RingSeen(db, kr, now) && now <= clock
    case Reserving(kr, _, now) => Ready(db, kr) && RingSeen(db, kr, now) && now <= clock
    case Disabling(version, _, now) => Seen(db, version, now) && now <= clock
    case Holding(kr, _, _) => Ready(db, kr)
    case Rechecking(kr, _, _, now) => Ready(db, kr) && now <= clock
    case Claiming(kr, _, _) => Ready(db, kr)
    case Claimed(kr, _, res) => Ready(db, kr) && ClaimTaken(db, NonceOf(res)) && Unsealed(sealings, NonceOf(res))
  }

  /** The version was registered no later than `now`. */
  predicate Seen(db: Db, version: Label, now: Epoch) { version in db.versions && db.versions[version].firstSeen <= now }

  predicate RingSeen(db: Db, kr: Option<Keyring>, now: Epoch) {
    kr.Some? ==> forall k | k in kr.value.keys :: Seen(db, k.version, now)
  }

  function NonceOf(res: Reservation): NonceId { NonceId(res.version, res.nonce) }

  predicate ClaimTaken(db: Db, id: NonceId) { id in db.ledger && db.ledger[id].claimedAt.Some? }

  /** The nonce has not reached the cipher. */
  predicate Unsealed(sealings: seq<Sealing>, id: NonceId) {
    forall s | s in sealings :: NonceId(s.version, s.nonce) != id
  }

  predicate CallersOk(w: World) {
    forall c | c in w.callers :: PcOk(w.db, w.clock, w.sealings, w.callers[c])
  }

  /** No two callers hold a claim on one nonce. */
  predicate ClaimsApart(callers: map<nat, Pc>) {
    forall c, d | c in callers && d in callers && c != d && callers[c].Claimed? && callers[d].Claimed? ::
      NonceOf(callers[c].res) != NonceOf(callers[d].res)
  }

  /** Everything that reached the cipher did so under a registered key and a claimed nonce. */
  predicate SealingOk(db: Db, s: Sealing) {
    && s.version in db.versions && db.versions[s.version].commitment == Commitment(s.material)
    && ClaimTaken(db, NonceId(s.version, s.nonce))
  }

  predicate SealingsApart(sealings: seq<Sealing>) {
    forall i, j | 0 <= i < j < |sealings| ::
      NonceId(sealings[i].version, sealings[i].nonce) != NonceId(sealings[j].version, sealings[j].nonce)
  }

  /** A stored commit: its row is its own, sealed under the registered key of its version. */
  ghost predicate StoredOk(db: Db, commit: Commit) {
    commit.stored.Some? ==>
      var row := commit.stored.value;
      && row.id == commit.id && row.fingerprint == commit.fingerprint && row.created == commit.at
      && commit.at < row.expires && ValidOwner(Owner(row.id, row.fingerprint))
      && row.version in db.versions && SealedFor(row, db.versions[row.version].commitment.material, commit.response)
  }

  predicate Live(commit: Commit, clock: Epoch) {
    commit.stored.Some? && clock < commit.stored.value.expires
  }

  /** What is stored and has not expired is still in the table. */
  predicate LiveKept(commits: seq<Commit>, rows: seq<ResultRow>, clock: Epoch) {
    forall k | k in commits && Live(k, clock) :: k.stored.value in rows
  }

  predicate CommittedRow(commits: seq<Commit>, row: ResultRow) {
    exists k | k in commits :: k.stored == Some(row)
  }

  /** Nothing is in the table that was not committed there. */
  predicate OnlyCommitted(commits: seq<Commit>, rows: seq<ResultRow>) {
    forall r | r in rows :: CommittedRow(commits, r)
  }

  /** Commits are recorded in time order and no stored one was overtaken before it expired. */
  predicate CommitsApart(commits: seq<Commit>) {
    forall i, j | 0 <= i < j < |commits| ::
      && commits[i].at <= commits[j].at
      && (commits[i].id == commits[j].id && commits[i].stored.Some? ==>
            commits[i].stored.value.expires <= commits[j].at)
  }

  /** A replay hands out the response of a commit under the same identity and fingerprint, live when judged. */
  predicate AnswersFrom(p: Replay, k: Commit) {
    && k.id == p.inv.id && k.fingerprint == p.inv.fingerprint && k.response == p.response
    && k.stored.Some? && p.seenAt < k.stored.value.expires
  }

  predicate ReplayOk(commits: seq<Commit>, p: Replay) {
    exists k | k in commits :: AnswersFrom(p, k)
  }

  ghost predicate HistoryOk(w: World) {
    && (forall s | s in w.sealings :: SealingOk(w.db, s)) && SealingsApart(w.sealings)
    && (forall k | k in w.commits :: k.at <= w.clock && StoredOk(w.db, k))
    && LiveKept(w.commits, w.db.results, w.clock) && OnlyCommitted(w.commits, w.db.results)
    && CommitsApart(w.commits)
    && (forall p | p in w.replays :: ReplayOk(w.commits, p))
  }

  ghost predicate Inv(w: World) {
    TablesOk(w.db, w.clock) && CallersOk(w) && ClaimsApart(w.callers) && HistoryOk(w)
  }
}
