/** A call nobody interferes with: the steps of IdempotencyRuns, taken in a row, do what the store's call does. */
module IdempotencyCalls {
  import opened Common
  import opened IdempotencyModel
  import opened IdempotencyTransactions
  import opened IdempotencyRuns

  function Optional<T>(value: Option<T>): seq<T> { if value.Some? then [value.value] else [] }

  /** What a finished call leaves in the tables and in the history. */
  predicate Finished(w: World, n: World, c: nat, t: Completion) {
    && n.db == t.db && n.clock == w.clock && n.PcOf(c).Idle?
    && n.commits == w.commits + Optional(t.commit) && n.sealings == w.sealings + Optional(t.sealing)
  }

  lemma CompletingStep(w: World, c: nat, outcome: Option<Outcome>)
    requires w.PcOf(c).Claimed?
    ensures var pc := w.PcOf(c);
      Finished(w, Next(w, CompleteCall(c, outcome, Reported)), c,
               Complete(w.db, pc.keyring, pc.inv, pc.res, outcome, w.clock))
  {
    hide Complete;
  }

  /** complete() from a held reservation: read the clock, look up, claim, complete. */
  function CompleteSteps(c: nat, outcome: Option<Outcome>): seq<Step> {
    [ReadClock(c), LookUp(c), ClaimNonce(c, true), CompleteCall(c, outcome, Reported)]
  }

  lemma FourSteps(w: World, a: Step, b: Step, c: Step, d: Step)
    ensures Run(w, [a, b, c, d]) == Next(Next(Next(Next(w, a), b), c), d)
  {
    hide Next;
    hide Run;
    assert [a, b, c, d] == [a] + ([b] + ([c] + [d]));
    InParts(w, [a], [b] + ([c] + [d]));
    OneStep(w, a);
    InParts(Next(w, a), [b], [c] + [d]);
    OneStep(Next(w, a), b);
    InParts(Next(Next(w, a), b), [c], [d]);
    OneStep(Next(Next(w, a), b), c);
    OneStep(Next(Next(Next(w, a), b), c), d);
  }

  /** A call that has gone idle takes no further step of its own. */
  lemma IdleStays(w: World, c: nat, step: Step)
    requires w.PcOf(c).Idle? && (step.LookUp? || step.ReserveNonce? || step.DisableAfterRefusal? || step.ReadClock?
                                 || step.ClaimNonce? || step.CompleteCall?) && step.caller == c
    ensures Next(w, step) == w
  {
  }

  /** The tables and the history of encryptions and commits stand. */
  predicate Unmoved(w: World, n: World) {
    n.db == w.db && n.clock == w.clock && n.commits == w.commits && n.sealings == w.sealings
  }

  lemma ReadingStep(w: World, c: nat)
    requires w.PcOf(c).Holding?
    ensures var pc := w.PcOf(c); var n := Next(w, ReadClock(c));
      Unmoved(w, n) && n.PcOf(c) == Rechecking(pc.keyring, pc.inv, pc.res, w.clock)
  {
  }

  lemma LookingStep(w: World, c: nat)
    requires w.PcOf(c).Looking? || w.PcOf(c).Rechecking?
    ensures var pc := w.PcOf(c); var n := Next(w, LookUp(c));
      && Unmoved(w, n)
      && n.PcOf(c) == if Classify(pc.inv, LoadResult(w.db.results, pc.inv.id), pc.keyring, pc.now) != Ok(None) then Idle
                      else if pc.Looking? then Reserving(pc.keyring, pc.inv, pc.now)
                      else Claiming(pc.keyring, pc.inv, pc.res)
  {
    hide Classify;
    hide LoadResult;
  }

  lemma ClaimingStep(w: World, c: nat)
    requires w.PcOf(c).Claiming?
    ensures var pc := w.PcOf(c); var n := Next(w, ClaimNonce(c, true)); var r := Claim(w.db, pc.inv, pc.res, w.clock);
      && n.clock == w.clock && n.commits == w.commits && n.sealings == w.sealings
      && n.db == (if r.Ok? then r.value else w.db)
      && n.PcOf(c) == if r.Ok? then Claimed(pc.keyring, pc.inv, pc.res) else Idle
  {
    hide Claim;
  }

  lemma UndisturbedCompletion(w: World, c: nat, kr: Option<Keyring>, inv: Invocation, res: Reservation,
                              outcome: Option<Outcome>)
    requires w.PcOf(c) == Holding(kr, inv, res)
    ensures Finished(w, Run(w, CompleteSteps(c, outcome)), c,
                     IdempotencyTransactions.CompleteCall(w.db, kr, inv, res, outcome, w.clock, w.clock, w.clock))
  {
    hide Run;
    hide Next;
    hide Classify;
    hide LoadResult;
    hide Claim;
    hide Complete;
    var last := CompleteCall(c, outcome, Reported);
    FourSteps(w, ReadClock(c), LookUp(c), ClaimNonce(c, true), last);
    var read := Next(w, ReadClock(c));
    ReadingStep(w, c);
    var looked := Next(read, LookUp(c));
    LookingStep(read, c);
    if looked.PcOf(c).Idle? {
      IdleStays(looked, c, ClaimNonce(c, true));
      IdleStays(looked, c, last);
    } else {
      var claimed := Next(looked, ClaimNonce(c, true));
      ClaimingStep(looked, c);
      if claimed.PcOf(c).Idle? { IdleStays(claimed, c, last); } else { CompletingStep(claimed, c, outcome); }
    }
  }

  // ---- the whole call -----------------------------------------------------------------------

  lemma StartingStep(w: World, c: nat, kr: Option<Keyring>, inv: Invocation)
    requires w.PcOf(c).Idle? && Ready(w.db, kr)
    ensures var n := Next(w, Execute(c, kr, inv)); Unmoved(w, n) && n.PcOf(c) == Looking(kr, inv, w.clock)
  {
    hide Ready;
  }

  lemma ReservingStep(w: World, c: nat, nonce: Option<Bytes>)
    requires w.PcOf(c).Reserving?
    ensures var pc := w.PcOf(c); var n := Next(w, ReserveNonce(c, nonce));
      var (db, r) := Reserve(w.db, pc.keyring, pc.inv, pc.now, nonce);
      && n.clock == w.clock && n.commits == w.commits && n.sealings == w.sealings && n.db == db
      && n.PcOf(c) == (match r case Reserved(res) => Holding(pc.keyring, pc.inv, res)
                               case DisableNeeded(version, reason) => Disabling(version, reason, pc.now)
                               case Refused => Idle)
  {
    hide Reserve;
  }

  lemma DisablingStep(w: World, c: nat)
    requires !w.PcOf(c).Holding?
    ensures var pc := w.PcOf(c); var n := Next(w, DisableAfterRefusal(c));
      && n.clock == w.clock && n.commits == w.commits && n.sealings == w.sealings
      && (pc.Disabling? ==> n.PcOf(c).Idle? && n.db == WriteDisable(w.db, pc.version, pc.reason, pc.now))
      && (pc.Idle? ==> n == w)
  {
    hide WriteDisable;
  }

  lemma NoDisabling(w: World, c: nat)
    requires w.PcOf(c).Holding?
    ensures Next(w, DisableAfterRefusal(c)) == w
  {
  }

  /** execute(): start, look up, reserve, disable if refused for it, and complete. */
  function CallSteps(c: nat, kr: Option<Keyring>, inv: Invocation, outcome: Option<Outcome>,
                     nonce: Option<Bytes>): seq<Step>
  {
    [Execute(c, kr, inv), LookUp(c), ReserveNonce(c, nonce), DisableAfterRefusal(c)] + CompleteSteps(c, outcome)
  }

  lemma IdleCompletes(w: World, c: nat, outcome: Option<Outcome>)
    requires w.PcOf(c).Idle?
    ensures Run(w, CompleteSteps(c, outcome)) == w
  {
    hide Run;
    hide Next;
    FourSteps(w, ReadClock(c), LookUp(c), ClaimNonce(c, true), CompleteCall(c, outcome, Reported));
    IdleStays(w, c, ReadClock(c));
    IdleStays(w, c, LookUp(c));
    IdleStays(w, c, ClaimNonce(c, true));
    IdleStays(w, c, CompleteCall(c, outcome, Reported));
  }

  lemma FirstHalf(w: World, c: nat, kr: Option<Keyring>, inv: Invocation, nonce: Option<Bytes>) returns (n: World)
    requires w.PcOf(c).Idle? && Ready(w.db, kr)
    ensures n == Run(w, [Execute(c, kr, inv), LookUp(c), ReserveNonce(c, nonce), DisableAfterRefusal(c)])
    ensures n.clock == w.clock && n.commits == w.commits && n.sealings == w.sealings
    ensures var (db, r) := Reserve(w.db, kr, inv, w.clock, nonce);
      if Classify(inv, LoadResult(w.db.results, inv.id), kr, w.clock) != Ok(None) then n.db == w.db && n.PcOf(c).Idle?
      else match r
        case Reserved(res) => n.db == db && n.PcOf(c) == Holding(kr, inv, res)
        case DisableNeeded(version, reason) => n.db == WriteDisable(db, version, reason, w.clock) && n.PcOf(c).Idle?
        case Refused => n.db == db && n.PcOf(c).Idle?
  {
    hide Run;
    hide Next;
    hide Ready;
    hide Classify;
    hide LoadResult;
    hide Reserve;
    hide WriteDisable;
    FourSteps(w, Execute(c, kr, inv), LookUp(c), ReserveNonce(c, nonce), DisableAfterRefusal(c));
    var started := Next(w, Execute(c, kr, inv));
    StartingStep(w, c, kr, inv);
    var looked := Next(started, LookUp(c));
    LookingStep(started, c);
    var reserved := Next(looked, ReserveNonce(c, nonce));
    if looked.PcOf(c).Idle? { IdleStays(looked, c, ReserveNonce(c, nonce)); } else { ReservingStep(looked, c, nonce); }
    n := Next(reserved, DisableAfterRefusal(c));
    if reserved.PcOf(c).Holding? { NoDisabling(reserved, c); } else { DisablingStep(reserved, c); }
  }

  /** The steps of one caller, taken in a row, leave exactly what execute() leaves. */
  lemma UndisturbedCall(w: World, c: nat, kr: Option<Keyring>, inv: Invocation, outcome: Option<Outcome>,
                        nonce: Option<Bytes>)
    requires w.PcOf(c).Idle? && Ready(w.db, kr)
    ensures Finished(w, Run(w, CallSteps(c, kr, inv, outcome, nonce)), c,
                     ExecuteCall(w.db, kr, inv, outcome, nonce, w.clock, w.clock, w.clock, w.clock))
  {
    hide Run;
    hide Ready;
    hide Classify;
    hide LoadResult;
    hide Reserve;
    hide WriteDisable;
    hide CompleteSteps;
    hide IdempotencyTransactions.CompleteCall;
    var half := FirstHalf(w, c, kr, inv, nonce);
    RefusedLeavesTables(w.db, kr, inv, w.clock, nonce);
    InParts(w, [Execute(c, kr, inv), LookUp(c), ReserveNonce(c, nonce), DisableAfterRefusal(c)],
            CompleteSteps(c, outcome));
    if half.PcOf(c).Idle? {
      IdleCompletes(half, c, outcome);
    } else {
      UndisturbedCompletion(half, c, kr, inv, half.PcOf(c).res, outcome);
    }
  }

  lemma RefusedLeavesTables(db: Db, kr: Option<Keyring>, inv: Invocation, now: Epoch, nonce: Option<Bytes>)
    ensures var (after, r) := Reserve(db, kr, inv, now, nonce); !r.Reserved? ==> after == db
  {
  }
}
