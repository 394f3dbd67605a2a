/** The epoch a write disable records, and the results dated after it: when the recorded epoch bounds every result of
    the version, and a run in which it does not. */
module IdempotencyDisableEpoch {
  import opened Common
  import opened IdempotencyModel
  import opened IdempotencyTransactions
  import opened IdempotencyTables
  import opened IdempotencyRuns
  import opened IdempotencyHistory

  /** Every stored result of the version is dated no later than e. */
  predicate DatedBy(db: Db, version: Label, e: Epoch) {
    forall r | r in db.results && r.version == version :: r.created <= e
  }

  /** The step takes the version from writable to closed. */
  predicate Closes(w: World, step: Step, version: Label) {
    && version in w.db.versions && w.db.versions[version].Writable()
    && version in Next(w, step).db.versions && !Next(w, step).db.versions[version].Writable()
  }

  // ---- which steps close a version ----------------------------------------------------------

  predicate SameBarrier(before: Db, after: Db, version: Label) {
    version in before.versions && version in after.versions && before.versions[version].Writable() ==>
      after.versions[version].Writable()
  }

  lemma {:induction false} RegisteringClosesNothing(db: Db, keys: seq<KeyVersion>, now: Epoch, version: Label)
    requires RegisterKeys(db, keys, now).Ok?
    ensures version in db.versions ==>
      var after := RegisterKeys(db, keys, now).value;
      version in after.versions && after.versions[version] == db.versions[version]
    decreases |keys|
  {
    if keys != [] {
      if LabelHeld(db, keys[0]) {
        RegisteringClosesNothing(db, keys[1..], now, version);
      } else {
        var longer := db.(versions := db.versions[keys[0].version := FreshVersion(keys[0], now)]);
        RegisteringClosesNothing(longer, keys[1..], now, version);
      }
    }
  }

  lemma ReservingClosesNothing(w: World, c: nat, nonce: Option<Bytes>, version: Label)
    ensures SameBarrier(w.db, Next(w, ReserveNonce(c, nonce)).db, version)
  {
    hide ValidOwner;
  }

  lemma CompletingClosesNothing(w: World, c: nat, outcome: Option<Outcome>, fate: Fate)
    ensures Next(w, CompleteCall(c, outcome, fate)).db.versions == w.db.versions
  {
    hide Classify;
    hide SealOutcome;
    hide TerminalExpiry;
  }

  lemma MaintenanceClosesNothing(w: World, step: Step, version: Label)
    requires step.Gc? || step.Drain? || step.RetireKey?
    ensures SameBarrier(w.db, Next(w, step).db, version)
  {
    hide Authentic;
    hide AllExpired;
    hide Ready;
  }

  /** Only a write disable closes a version, with an epoch that is not ahead of the clock, and it leaves the results
      alone. */
  lemma ClosingStep(w: World, step: Step, version: Label)
    requires Inv(w) && Closes(w, step, version)
    ensures var n := Next(w, step);
      && n.db.results == w.db.results && n.clock == w.clock
      && n.db.versions[version].writeDisabled.Some? && n.db.versions[version].writeDisabled.value <= w.clock
  {
    hide Inv;
    hide Reserve;
    hide Claim;
    hide Complete;
    hide RegisterKeys;
    hide CollectGarbage;
    hide CompleteDrain;
    hide RetireTransaction;
    hide Classify;
    match step
    case OpenStore(ring) =>
      if ValidKeyring(ring) && RegisterKeys(w.db, ring.keys, w.clock).Ok? {
        RegisteringClosesNothing(w.db, ring.keys, w.clock, version);
      }
    case ReserveNonce(c, nonce) => ReservingClosesNothing(w, c, nonce, version);
    case ClaimNonce(c, reported) => ClaimingClosesNothing(w, c, reported);
    case CompleteCall(c, outcome, fate) => CompletingClosesNothing(w, c, outcome, fate);
    case Gc(_, _) => MaintenanceClosesNothing(w, step, version);
    case Drain(_) => MaintenanceClosesNothing(w, step, version);
    case RetireKey(_, _, _) => MaintenanceClosesNothing(w, step, version);
    case DisableAfterRefusal(c) => if w.PcOf(c).Disabling? { PositionOk(w, c); }
    case _ =>
  }

  lemma ClaimingClosesNothing(w: World, c: nat, reported: bool)
    ensures Next(w, ClaimNonce(c, reported)).db.versions == w.db.versions
  {
  }

  // ---- the exact condition ------------------------------------------------------------------

  lemma ClosedGainsNothing(n: World, more: seq<Step>, version: Label, e: Epoch)
    requires Inv(n) && version in n.db.versions && !n.db.versions[version].Writable() && DatedBy(n.db, version, e)
    ensures DatedBy(Run(n, more).db, version, e)
  {
    hide Inv;
    hide Run;
    RunEvolves(n, more);
  }

  lemma DatedByTheClock(w: World, version: Label)
    requires Inv(w)
    ensures DatedBy(w.db, version, w.clock)
  {
    hide VersionsOk;
    hide LedgerOk;
    hide CallersOk;
    hide HistoryOk;
    forall r | r in w.db.results && r.version == version ensures r.created <= w.clock {
      assert RowOk(r, w.db, w.clock);
    }
  }

  /** In every run and whatever follows it: the epoch with which a step closes a version bounds all results the version
      ever has from then on if and only if it bounds those it has when the step is taken. The clock of that step bounds
      them without condition, so the epoch does whenever it is read at that moment. */
  lemma DisableEpochBoundsResultsExactly(t0: Epoch, steps: seq<Step>, step: Step, version: Label)
    requires Closes(Run(Start(t0), steps), step, version)
    ensures var w := Run(Start(t0), steps); var n := Next(w, step);
      && n.db.versions[version].writeDisabled.Some?
      && var e := n.db.versions[version].writeDisabled.value;
      && e <= w.clock
      && ((forall more :: DatedBy(Run(n, more).db, version, e)) <==> DatedBy(w.db, version, e))
      && (forall more :: DatedBy(Run(n, more).db, version, w.clock))
  {
    hide Inv;
    hide Run;
    hide Next;
    hide DatedBy;
    var w := Run(Start(t0), steps);
    var n := Next(w, step);
    Reachable(t0, steps);
    ClosingStep(w, step, version);
    StepKeeps(w, step);
    DatedByTheClock(w, version);
    var e := n.db.versions[version].writeDisabled.value;
    SameResults(w.db, n.db, version, e);
    SameResults(w.db, n.db, version, w.clock);
    if DatedBy(w.db, version, e) {
      forall more ensures DatedBy(Run(n, more).db, version, e) { ClosedGainsNothing(n, more, version, e); }
    } else {
      NoMore(n);
      assert !DatedBy(Run(n, []).db, version, e);
    }
    forall more ensures DatedBy(Run(n, more).db, version, w.clock) { ClosedGainsNothing(n, more, version, w.clock); }
  }

  lemma NoMore(w: World)
    ensures Run(w, []) == w
  {
  }

  lemma SameResults(a: Db, b: Db, version: Label, e: Epoch)
    requires a.results == b.results
    ensures DatedBy(a, version, e) <==> DatedBy(b, version, e)
  {
  }
}
