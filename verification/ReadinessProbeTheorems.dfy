/** What the bounded readiness probe promises, proved of every interleaving; and the one way in which a
    wake-up is lost. */
module ReadinessProbeTheorems {
  import opened Common
  import opened ReadinessProbe
  import opened ReadinessProbeSafety

  lemma Reachable(cap: int, timeout: int, cancellable: bool, clock: int, steps: seq<Step>)
    ensures var s := Initial(cap, timeout, cancellable, clock); Inv(s) && Inv(Run(s, steps))
  {
    hide Inv;
    Starts(cap, timeout, cancellable, clock);
    RunKeeps(Initial(cap, timeout, cancellable, clock), steps);
  }

  // ---- wake-ups -----------------------------------------------------------------------------

  /** A probe somebody is waiting for will be picked up, unless the worker it was handed to was dying. */
  lemma ServedExactlyUnlessHandedToDying(cap: int, timeout: int, cancellable: bool, clock: int, steps: seq<Step>)
    ensures var s := Run(Initial(cap, timeout, cancellable, clock), steps);
      Awaited(s) ==> (Served(s, s.probe.value) <==> !s.probes[s.probe.value].toDying)
  {
    Reachable(cap, timeout, cancellable, clock, steps);
    var s := Run(Initial(cap, timeout, cancellable, clock), steps);
    hide Run;
    hide CountOk;
    hide AnswersOk;
    if Awaited(s) && s.worker.Some? {
      var p, w := s.probe.value, s.worker.value;
      assert ProbeOk(s.probes[p], p, s.workers, s.clock + s.timeout, s.at);
      assert WorkerOk(s.workers[w], true, Spare(s) == Some(w)) && ReadingOk(s.workers[w], w, s.probes);
    }
  }

  predicate NobodyDying(s: State) {
    && (forall w | 0 <= w < |s.workers| :: !s.workers[w].dying)
    && (forall p | 0 <= p < |s.probes| :: !s.probes[p].toDying)
  }

  /** What every step leaves as configured, and every step but an escape leaves alive. */
  predicate Settled(s: State, n: State) {
    && n.cap == s.cap && n.timeout == s.timeout && n.cancellable == s.cancellable && s.clock <= n.clock
    && (NobodyDying(s) ==> NobodyDying(n))
  }

  lemma EnterSettled(s: State)
    requires Linked(s) && s.lock.Free?
    ensures Settled(s, AfterEnter(s)) && Settled(s, AfterClose(s))
  {
  }

  lemma ChoiceSettled(s: State)
    requires Linked(s)
    ensures s.lock.ReadingIdle? ==> Settled(s, AfterReadIdle(s))
    ensures s.lock.Replacing? ==> Settled(s, AfterReplace(s))
  {
  }

  lemma ReplacementSettled(s: State)
    requires Linked(s)
    ensures s.lock.Waking? ==> Settled(s, AfterWake(s))
    ensures s.lock.Counting? ==> Settled(s, AfterCount(s))
  {
  }

  lemma HandoffSettled(s: State)
    requires Linked(s)
    ensures s.lock.Publishing? ==> Settled(s, AfterPublish(s))
    ensures s.lock.Starting? ==> forall started :: Settled(s, AfterStart(s, started))
  {
  }

  lemma CloserSettled(s: State, p: nat)
    requires Linked(s)
    ensures Settled(s, AfterCloserStep(s)) && Settled(s, AfterReturn(s, p))
  {
  }

  lemma PutSettled(s: State, w: nat, x: Worker)
    requires Linked(s) && w < |s.workers| && (x.pc.HasTarget() ==> x.pc.target < |s.probes|)
    requires x.dying == s.workers[w].dying
    ensures Settled(s, Put(s, w, x))
  {
  }

  lemma PutProbeSettled(s: State, i: nat, p: Probe)
    requires Linked(s) && i < |s.probes| && p.toDying == s.probes[i].toDying
    ensures Settled(s, PutProbe(s, i, p))
  {
  }

  lemma ReadSettled(s: State, w: nat)
    requires Linked(s) && w < |s.workers|
    ensures Settled(s, AfterRead(s, w))
  {
    hide NobodyDying;
    var x := s.workers[w];
    PutSettled(s, w, x);
    PutSettled(s, w, x.(pc := Release));
    PutSettled(s, w, x.(pc := if s.probe.None? then SetIdle else Decide(s.probe.value)));
    assert Put(s, w, x) == s;
  }

  lemma ParkingSettled(s: State, w: nat)
    requires Linked(s) && w < |s.workers|
    ensures Settled(s, Put(s, w, Parking(s.workers[w])))
  {
    hide Settled;
    PutSettled(s, w, Parking(s.workers[w]));
  }

  lemma ReleaseSettled(s: State, w: nat)
    requires Linked(s) && w < |s.workers|
    ensures Settled(s, AfterRelease(s, w))
  {
  }

  lemma DecideSettled(s: State, w: nat)
    requires Linked(s) && w < |s.workers| && s.workers[w].pc.Decide?
    ensures Settled(s, AfterDecide(s, w))
  {
    hide NobodyDying;
    var n := AfterDecide(s, w);
    PutSettled(s, w, n.workers[w]);
    var i := s.workers[w].pc.target;
    if !s.probes[i].finished { PutProbeSettled(Put(s, w, n.workers[w]), i, n.probes[i]); }
  }

  lemma FinishSettled(s: State, w: nat)
    requires Linked(s) && w < |s.workers|
    requires s.workers[w].pc.FinishIdle? || s.workers[w].pc.FinishReady? || s.workers[w].pc.FinishFinished?
    ensures Settled(s, AfterFinish(s, w))
  {
    hide NobodyDying;
    var x, i := s.workers[w], s.workers[w].pc.target;
    PutSettled(s, w, Finishing(x));
    PutProbeSettled(Put(s, w, Finishing(x)), i, Finished(x, s.probes[i]));
  }

  lemma WorkerStepSettled(s: State, w: nat)
    requires Linked(s) && w < |s.workers|
    ensures Settled(s, AfterWorkerStep(s, w))
  {
    hide Linked;
    hide NobodyDying;
    hide AfterRead;
    hide AfterDecide;
    hide AfterFinish;
    hide AfterRelease;
    hide Parking;
    ReadSettled(s, w);
    ParkingSettled(s, w);
    ReleaseSettled(s, w);
    var pc := s.workers[w].pc;
    if pc.Decide? { DecideSettled(s, w); }
    if pc.FinishIdle? || pc.FinishReady? || pc.FinishFinished? { FinishSettled(s, w); }
  }

  lemma CheckSettled(s: State, w: nat, passed: bool, escaped: bool)
    requires Linked(s) && w < |s.workers|
    ensures var n := AfterCheck(s, w, passed, escaped);
      && n.cap == s.cap && n.timeout == s.timeout && n.cancellable == s.cancellable && s.clock <= n.clock
      && (!escaped ==> Settled(s, n))
  {
  }

  lemma CallStepSettled(s: State, step: Step)
    requires Linked(s)
    requires step.Enter? || step.ReadIdle? || step.Replace? || step.Wake? || step.Count? || step.Start? || step.Publish?
    ensures Settled(s, Next(s, step))
  {
    hide Linked;
    hide AfterEnter;
    hide AfterReadIdle;
    hide AfterReplace;
    hide AfterWake;
    hide AfterCount;
    hide AfterStart;
    hide AfterPublish;
    ChoiceSettled(s);
    ReplacementSettled(s);
    HandoffSettled(s);
    if s.lock.Free? { EnterSettled(s); }
  }

  lemma StepSettled(s: State, step: Step)
    requires Linked(s)
    ensures var n := Next(s, step);
      && n.cap == s.cap && n.timeout == s.timeout && n.cancellable == s.cancellable && s.clock <= n.clock
      && (!step.CheckEscapes? ==> Settled(s, n))
  {
    hide Linked;
    hide AfterClose;
    hide AfterCloserStep;
    hide AfterReturn;
    hide AfterWorkerStep;
    hide AfterCheck;
    match step
    case WorkerStep(w) => if w < |s.workers| { WorkerStepSettled(s, w); }
    case CheckReturns(w, passed) => if w < |s.workers| { CheckSettled(s, w, passed, false); }
    case CheckEscapes(w) => if w < |s.workers| { CheckSettled(s, w, false, true); }
    case Return(p) => CloserSettled(s, p);
    case CloserStep => CloserSettled(s, 0);
    case Close => if s.lock.Free? { EnterSettled(s); }
    case Tick(_) =>
    case ReclaimerClears =>
    case _ => CallStepSettled(s, step);
  }

  lemma {:induction false} RunSettled(s: State, steps: seq<Step>)
    requires Linked(s)
    ensures var n := Run(s, steps);
      && n.cap == s.cap && n.timeout == s.timeout && n.cancellable == s.cancellable && s.clock <= n.clock
      && (NobodyDying(s) && (forall step | step in steps :: !step.CheckEscapes?) ==> NobodyDying(n))
    decreases |steps|
  {
    hide Linked;
    hide Next;
    hide NobodyDying;
    if steps != [] {
      StepSettled(s, steps[0]);
      RunSettled(Next(s, steps[0]), steps[1..]);
    }
  }

  /** While no BaseException escapes a check, no wake-up is ever lost. */
  lemma NoLostWakeUp(cap: int, timeout: int, cancellable: bool, clock: int, steps: seq<Step>)
    requires forall step | step in steps :: !step.CheckEscapes?
    ensures var s := Run(Initial(cap, timeout, cancellable, clock), steps);
      Awaited(s) ==> Served(s, s.probe.value)
  {
    var start := Initial(cap, timeout, cancellable, clock);
    Reachable(cap, timeout, cancellable, clock, steps);
    RunSettled(start, steps);
    ServedExactlyUnlessHandedToDying(cap, timeout, cancellable, clock, steps);
  }

  // ---- accounting ---------------------------------------------------------------------------

  function LiveWorkers(s: State): set<nat> {
    set w | 0 <= w < |s.workers| && !s.workers[w].pc.Gone?
  }

  /** The count is exactly the workers marked as counted, none of which has been released; it stays within
      the cap, and so the threads alive are at most one more. */
  lemma SlotsAccounted(cap: int, timeout: int, cancellable: bool, clock: int, steps: seq<Step>)
    ensures var s := Run(Initial(cap, timeout, cancellable, clock), steps);
      && s.abandoned == |Counted(s.workers)| && Counted(s.workers) <= LiveWorkers(s)
      && (s.abandoned <= s.cap || s.abandoned == 0)
      && |LiveWorkers(s)| <= s.abandoned + 1
  {
    Reachable(cap, timeout, cancellable, clock, steps);
    var s := Run(Initial(cap, timeout, cancellable, clock), steps);
    hide Run;
    hide ControlOk;
    hide AnswersOk;
    forall w | w in LiveWorkers(s) && w !in Counted(s.workers) ensures Spare(s) == Some(w) {
      assert WorkerOk(s.workers[w], s.worker == Some(w), Spare(s) == Some(w));
    }
    forall w | w in Counted(s.workers) ensures w in LiveWorkers(s) {
      assert WorkerOk(s.workers[w], s.worker == Some(w), Spare(s) == Some(w));
    }
    var spare := if Spare(s).Some? then {Spare(s).value} else {};
    assert LiveWorkers(s) <= Counted(s.workers) + spare;
    SubsetSize(LiveWorkers(s), Counted(s.workers) + spare);
  }

  lemma {:induction false} SubsetSize(a: set<nat>, b: set<nat>)
    requires a <= b
    ensures |a| <= |b|
  {
    if a != {} {
      var x :| x in a;
      SubsetSize(a - {x}, b - {x});
    }
  }

  /** The recorded worker is alive, so the branch for one whose thread is already gone is never taken. */
  lemma RecordedWorkerIsAlive(cap: int, timeout: int, cancellable: bool, clock: int, steps: seq<Step>)
    ensures var s := Run(Initial(cap, timeout, cancellable, clock), steps);
      && (s.worker.Some? ==> !s.workers[s.worker.value].pc.Gone?)
      && (s.lock.Replacing? || s.lock.Counting? ==> !s.workers[s.lock.w].pc.Gone?)
  {
    Reachable(cap, timeout, cancellable, clock, steps);
    var s := Run(Initial(cap, timeout, cancellable, clock), steps);
    hide Run;
    hide CountOk;
    hide AnswersOk;
    if s.worker.Some? { assert WorkerOk(s.workers[s.worker.value], true, Spare(s) == s.worker); }
  }

  /** As long as a call is abandoned in an open probe, the reclaimer's event is set; the reclaimer itself clears it
      exactly when it finds the lock free and no call abandoned. */
  lemma ReclaimerStaysAwake(cap: int, timeout: int, clock: int, steps: seq<Step>)
    ensures var s := Run(Initial(cap, timeout, true, clock), steps);
      s.cancellable && (!s.Closed() && s.abandoned > 0 ==> s.reclaim)
    ensures var s := Run(Initial(cap, timeout, true, clock), steps);
      Next(s, ReclaimerClears) == s.(at := s.at + 1, reclaim := s.reclaim && (!s.lock.Free? || s.abandoned != 0))
  {
    Reachable(cap, timeout, true, clock, steps);
    hide ControlOk;
    hide AnswersOk;
    RunSettled(Initial(cap, timeout, true, clock), steps);
  }

  // ---- answers ------------------------------------------------------------------------------

  /** Each probe is checked at most once, by the worker it was handed to, after it was created; it becomes
      ready only if that check passed; and nobody waits for longer than the timeout. */
  lemma CheckedAtMostOnce(cap: int, timeout: int, cancellable: bool, clock: int, steps: seq<Step>, i: nat)
    requires i < |Run(Initial(cap, timeout, cancellable, clock), steps).probes|
    ensures var s := Run(Initial(cap, timeout, cancellable, clock), steps);
      var p := s.probes[i];
      && p.checks <= 1 && (p.checks == 1 ==> p.createdAt < p.checkedAt)
      && (p.ready ==> p.checks == 1 && p.checkPassed)
      && p.deadline <= s.clock + timeout
      && (forall w | 0 <= w < |s.workers| && s.workers[w].Serving(i) :: w == p.server)
  {
    Reachable(cap, timeout, cancellable, clock, steps);
    RunSettled(Initial(cap, timeout, cancellable, clock), steps);
    var s := Run(Initial(cap, timeout, cancellable, clock), steps);
    hide Run;
    hide ControlOk;
    hide AnswersOk;
    hide CountOk;
    assert ProbeOk(s.probes[i], i, s.workers, s.clock + s.timeout, s.at);
    forall w | 0 <= w < |s.workers| && s.workers[w].Serving(i) ensures w == s.probes[i].server {
      assert ReadingOk(s.workers[w], w, s.probes);
    }
  }

  /** A call answers True only on a finished probe whose own check, begun after the probe was created, passed. */
  lemma TrueComesFromAFreshCheck(cap: int, timeout: int, cancellable: bool, clock: int, steps: seq<Step>, a: Answer)
    requires a in Run(Initial(cap, timeout, cancellable, clock), steps).answers && a.value
    ensures var s := Run(Initial(cap, timeout, cancellable, clock), steps);
      && a.p.Some? && a.p.value < |s.probes|
      && var p := s.probes[a.p.value];
      p.finished && p.checks == 1 && p.createdAt < p.checkedAt && p.checkPassed
  {
    Reachable(cap, timeout, cancellable, clock, steps);
    var s := Run(Initial(cap, timeout, cancellable, clock), steps);
    hide Run;
    hide ControlOk;
    hide CountOk;
    assert AnswerOk(a, s.probes);
    var i := a.p.value;
    assert ProbeOk(s.probes[i], i, s.workers, s.clock + s.timeout, s.at);
  }

  // ---- the lost wake-up ---------------------------------------------------------------------

  ghost predicate Reaches(s: State, t: State)
    requires Linked(s)
  {
    exists steps :: Run(s, steps) == t
  }

  lemma {:induction false} RunOneMore(s: State, steps: seq<Step>, step: Step)
    requires Linked(s)
    ensures Run(s, steps + [step]) == Next(Run(s, steps), step)
    decreases |steps|
  {
    hide Linked;
    hide Next;
    if steps == [] {
      assert Run(s, [step]) == Run(Next(s, step), []);
    } else {
      assert (steps + [step])[1..] == steps[1..] + [step];
      RunOneMore(Next(s, steps[0]), steps[1..], step);
    }
  }

  lemma Onward(s: State, t: State, step: Step, next: State)
    requires Linked(s) && Linked(t) && Reaches(s, t) && Next(t, step) == next
    ensures Reaches(s, next)
  {
    hide Linked;
    hide Next;
    var steps :| Run(s, steps) == t;
    RunOneMore(s, steps, step);
  }

  /** One worker, one probe, nobody inside the lock. */
  function Solo(s: State, at: nat, x: Worker, p: Probe): State {
    s.(at := at, worker := Some(0), probe := Some(0), workers := [x], probes := [p])
  }

  predicate Blank(s: State) {
    s.lock.Free? && s.closer.Open? && s.worker.None? && s.probe.None? && s.workers == [] && s.probes == []
  }

  lemma Enters(s: State)
    requires Linked(s) && s.lock.Free? && s.closer.Open? && (s.probe.Some? ==> s.probes[s.probe.value].finished)
    ensures Next(s, Enter) == s.(at := s.at + 1, lock := ReadingIdle(s.clock)) && Linked(Next(s, Enter))
  {
  }

  lemma Chooses(s: State)
    requires Linked(s) && s.lock.ReadingIdle? && (s.worker.Some? ==> s.workers[s.worker.value].idle)
    ensures Next(s, ReadIdle) == s.(at := s.at + 1, lock := if s.worker.None? then Starting(s.lock.now)
                                                            else Publishing(s.lock.now, s.worker.value))
    ensures Linked(Next(s, ReadIdle))
  {
  }

  lemma StartsWorker(s: State)
    requires Linked(s) && s.lock.Starting? && s.workers == []
    ensures Next(s, Start(true))
         == s.(at := s.at + 1, lock := Publishing(s.lock.now, 0), workers := [Fresh()], worker := Some(0))
    ensures Linked(Next(s, Start(true)))
  {
  }

  lemma Publishes(s: State)
    requires Linked(s) && s.lock.Publishing? && s.lock.w == 0 && |s.workers| == 1
    ensures Next(s, Publish) == s.(at := s.at + 1, lock := Free, probe := Some(|s.probes|),
      probes := s.probes + [Probe(s.lock.now + s.timeout, false, false, s.at, 0, s.workers[0].dying, 0, 0, false)],
      workers := [s.workers[0].(requested := true)])
    ensures Linked(Next(s, Publish))
  {
  }

  lemma FirstCall(s: State)
    requires Linked(s) && Blank(s)
    ensures Reaches(s, Solo(s, s.at + 4, Fresh().(requested := true),
                            Probe(s.clock + s.timeout, false, false, s.at + 3, 0, false, 0, 0, false)))
  {
    hide Next;
    hide Linked;
    assert Run(s, []) == s;
    Enters(s);
    var a := Next(s, Enter);
    Onward(s, s, Enter, a);
    Chooses(a);
    var b := Next(a, ReadIdle);
    Onward(s, a, ReadIdle, b);
    StartsWorker(b);
    var c := Next(b, Start(true));
    Onward(s, b, Start(true), c);
    Publishes(c);
    Onward(s, c, Publish, Next(c, Publish));
  }

  lemma Parks(s: State, at: nat, x: Worker, p: Probe)
    requires Blank(s) && (x.pc.SetIdle? || x.pc.Wait? || x.pc.ClearRequested? || x.pc.ClearIdle?)
    ensures Linked(Solo(s, at, x, p))
    ensures Next(Solo(s, at, x, p), WorkerStep(0)) == Solo(s, at + 1, Parking(x), p)
  {
  }

  lemma Reads(s: State, at: nat, x: Worker, p: Probe)
    requires Blank(s) && x.pc.ReadProbe? && !x.abandoned
    ensures Linked(Solo(s, at, x, p))
    ensures Next(Solo(s, at, x, p), WorkerStep(0)) == Solo(s, at + 1, x.(pc := Decide(0)), p)
  {
  }

  lemma Decides(s: State, at: nat, x: Worker, p: Probe)
    requires Blank(s) && x.pc == Decide(0) && !p.finished
    ensures Linked(Solo(s, at, x, p))
    ensures Next(Solo(s, at, x, p), WorkerStep(0))
         == Solo(s, at + 1, x.(pc := Checking(0)), p.(checks := p.checks + 1, checkedAt := at))
  {
  }

  lemma Escapes(s: State, at: nat, x: Worker, p: Probe)
    requires Blank(s) && x.pc == Checking(0)
    ensures Linked(Solo(s, at, x, p))
    ensures Next(Solo(s, at, x, p), CheckEscapes(0))
         == Solo(s, at + 1, x.(dying := true, pc := FinishIdle(0, false)), p.(checkPassed := false))
  {
  }

  lemma Finishes(s: State, at: nat, x: Worker, p: Probe)
    requires Blank(s) && x.dying
    requires x.pc == FinishIdle(0, false) || x.pc == FinishReady(0, false) || x.pc == FinishFinished(0)
    ensures Linked(Solo(s, at, x, p))
    ensures Next(Solo(s, at, x, p), WorkerStep(0)) == Solo(s, at + 1, Finishing(x), Finished(x, p))
  {
    hide Finishing;
    hide Finished;
    TargetStays(x);
  }

  lemma TargetStays(x: Worker)
    ensures Finishing(x).pc.HasTarget() ==> x.pc.HasTarget() && Finishing(x).pc.target == x.pc.target
  {
  }

  /** Its check has escaped; it shows `idle` and has yet to release itself. */
  predicate LeavingWorker(s: State, t: State, x: Worker, p: Probe) {
    t == Solo(s, t.at, x, p) && p.finished && x.dying && x.idle && x.pc.Release? && !x.counted
  }

  /** A second call while the dying worker shows `idle`, and then that worker leaves. */
  lemma SecondCall(s: State, t: State, x: Worker, p: Probe)
    requires Linked(s) && Blank(s) && Reaches(s, t) && LeavingWorker(s, t, x, p) && s.timeout > 0
    ensures exists u :: Linked(u) && Reaches(s, u) && Awaited(u) && u.worker.None? && u.clock == s.clock
  {
    hide Next;
    hide Linked;
    hide Run;
    assert Linked(t) by { SoloIsLinked(s, t.at, x, p); }
    Enters(t);
    var a := Next(t, Enter);
    Onward(s, t, Enter, a);
    Chooses(a);
    var b := Next(a, ReadIdle);
    Onward(s, a, ReadIdle, b);
    Publishes(b);
    var c := Next(b, Publish);
    Onward(s, b, Publish, c);
    Leaves(c);
    Onward(s, c, WorkerStep(0), Next(c, WorkerStep(0)));
    assert Awaited(Next(c, WorkerStep(0)));
  }

  lemma SoloIsLinked(s: State, at: nat, x: Worker, p: Probe)
    requires Blank(s) && !x.pc.HasTarget()
    ensures Linked(Solo(s, at, x, p))
  {
  }

  lemma Leaves(s: State)
    requires Linked(s) && s.lock.Free? && s.worker == Some(0) && |s.workers| == 1
    requires s.workers[0].pc.Release? && !s.workers[0].counted
    ensures Next(s, WorkerStep(0)) == s.(at := s.at + 1, worker := None, workers := [s.workers[0].(pc := Gone)])
    ensures Linked(Next(s, WorkerStep(0)))
  {
  }

  lemma CheckBegins(s: State) returns (at: nat, p: Probe)
    requires Linked(s) && Blank(s)
    ensures Reaches(s, Solo(s, at, Fresh().(pc := Checking(0)), p))
    ensures Linked(Solo(s, at, Fresh().(pc := Checking(0)), p))
  {
    hide Next;
    hide Linked;
    hide Run;
    hide Reaches;
    FirstCall(s);
    var x0 := Fresh().(requested := true);
    var p0 := Probe(s.clock + s.timeout, false, false, s.at + 3, 0, false, 0, 0, false);
    var n := s.at + 4;
    var x1 := Parking(x0);
    Parks(s, n, x0, p0);
    Onward(s, Solo(s, n, x0, p0), WorkerStep(0), Solo(s, n + 1, x1, p0));
    var x2 := Parking(x1);
    Parks(s, n + 1, x1, p0);
    Onward(s, Solo(s, n + 1, x1, p0), WorkerStep(0), Solo(s, n + 2, x2, p0));
    var x3 := Parking(x2);
    Parks(s, n + 2, x2, p0);
    Onward(s, Solo(s, n + 2, x2, p0), WorkerStep(0), Solo(s, n + 3, x3, p0));
    var x4 := Parking(x3);
    Parks(s, n + 3, x3, p0);
    Onward(s, Solo(s, n + 3, x3, p0), WorkerStep(0), Solo(s, n + 4, x4, p0));
    var x5 := x4.(pc := Decide(0));
    Reads(s, n + 4, x4, p0);
    Onward(s, Solo(s, n + 4, x4, p0), WorkerStep(0), Solo(s, n + 5, x5, p0));
    at, p := n + 6, p0.(checks := 1, checkedAt := n + 5);
    Decides(s, n + 5, x5, p0);
    Onward(s, Solo(s, n + 5, x5, p0), WorkerStep(0), Solo(s, at, Fresh().(pc := Checking(0)), p));
    Escapes(s, at, Fresh().(pc := Checking(0)), p);
  }

  lemma DyingWorker(s: State)
    requires Linked(s) && Blank(s)
    ensures exists t, x, p :: Reaches(s, t) && LeavingWorker(s, t, x, p)
  {
    hide Next;
    hide Linked;
    hide Run;
    hide Reaches;
    var n, p1 := CheckBegins(s);
    var x6 := Fresh().(pc := Checking(0));
    var x7, p2 := x6.(dying := true, pc := FinishIdle(0, false)), p1.(checkPassed := false);
    Escapes(s, n, x6, p1);
    Onward(s, Solo(s, n, x6, p1), CheckEscapes(0), Solo(s, n + 1, x7, p2));
    var x8 := Finishing(x7);
    Finishes(s, n + 1, x7, p2);
    Onward(s, Solo(s, n + 1, x7, p2), WorkerStep(0), Solo(s, n + 2, x8, p2));
    var x9, p3 := Finishing(x8), Finished(x8, p2);
    Finishes(s, n + 2, x8, p2);
    Onward(s, Solo(s, n + 2, x8, p2), WorkerStep(0), Solo(s, n + 3, x9, p3));
    Finishes(s, n + 3, x9, p3);
    Onward(s, Solo(s, n + 3, x9, p3), WorkerStep(0), Solo(s, n + 4, Finishing(x9), Finished(x9, p3)));
    assert LeavingWorker(s, Solo(s, n + 4, Finishing(x9), Finished(x9, p3)), Finishing(x9), Finished(x9, p3));
  }

  /** A check that dies with a BaseException sets `idle` before its thread is gone. A call that comes in
      between hands its probe to that thread: afterwards nobody is there to serve it, and later calls only
      join it until its deadline. */
  lemma WakeUpCanBeLost(cap: int, timeout: int, cancellable: bool, clock: int)
    requires timeout > 0
    ensures exists steps ::
      var s := Run(Initial(cap, timeout, cancellable, clock), steps);
      Awaited(s) && !Served(s, s.probe.value) && Next(s, Enter) == Ticked(s)
  {
    var s := Initial(cap, timeout, cancellable, clock);
    DyingWorker(s);
    var t, x, p :| Reaches(s, t) && LeavingWorker(s, t, x, p);
    SecondCall(s, t, x, p);
    var u :| Linked(u) && Reaches(s, u) && Awaited(u) && u.worker.None? && u.clock == s.clock;
    var steps :| Run(s, steps) == u;
    assert Next(u, Enter) == Ticked(u);
  }
}
