/** An awaited probe is checked within a bounded number of steps of its own worker, or can never be checked at all. */
module ReadinessProbeProgress {
  import opened Common
  import opened ReadinessProbe
  import opened ReadinessProbeSafety
  import opened ReadinessProbeTheorems

  /** The most operations between the hand-off and the check: finish what it is serving, park, wake, read, decide. */
  const STEPS_TO_CHECK := 8

  /** The operations a worker still has to perform before the check of the probe it will read. */
  function Distance(pc: Pc): nat {
    match pc
    case FinishReady(_, _) => 8
    case FinishFinished(_) => 7
    case SetIdle => 6
    case Wait => 5
    case ClearRequested => 4
    case ClearIdle => 3
    case ReadProbe => 2
    case Decide(_) => 1
    case _ => 0
  }

  /** k operations of worker w and nothing else. */
  function Own(w: nat, k: nat): seq<Step> { if k == 0 then [] else [WorkerStep(w)] + Own(w, k - 1) }

  /** The check of probe p has begun, and its worker is in it or finishing it. */
  predicate CheckBegun(s: State, p: nat) {
    && p < |s.probes| && s.probes[p].checks == 1
    && s.probes[p].server < |s.workers| && s.workers[s.probes[p].server].Serving(p)
  }

  /** Awaited, handed to a worker that was not dying, and not checked yet. */
  predicate Due(s: State)
    requires Linked(s)
  {
    Awaited(s) && !s.probes[s.probe.value].toDying && s.probes[s.probe.value].checks == 0
  }

  // ---- towards the check --------------------------------------------------------------------

  /** From s to n the check of the current probe has begun, or is due and closer. */
  predicate Nearer(s: State, n: State)
    requires Linked(s) && Linked(n) && s.probe.Some? && s.probes[s.probe.value].server < |s.workers|
  {
    var (p, w) := (s.probe.value, s.probes[s.probe.value].server);
    && n.probe == s.probe && p < |n.probes| && w < |n.workers|
    && n.probes[p].server == w && !n.probes[p].toDying && n.probes[p].checks <= 1
    && (n.probes[p].checks == 1 ==> n.workers[w].pc == Checking(p))
    && (n.probes[p].checks == 0 ==> Due(n) && Distance(n.workers[w].pc) < Distance(s.workers[w].pc))
  }

  /** What the steps below need to know of a due probe. */
  predicate Ready(s: State)
    requires Linked(s)
  {
    && Due(s) && s.worker == Some(s.probes[s.probe.value].server)
    && var x := s.workers[s.worker.value];
    && !x.abandoned && !x.dying && 1 <= Distance(x.pc)
    && (x.pc.Decide? ==> x.pc.target == s.probe.value) && (x.pc.Wait? ==> x.requested)
    && (x.pc.FinishReady? || x.pc.FinishFinished? ==> x.pc.target != s.probe.value)
  }

  /** Where the worker of a due probe can stand. */
  lemma DueFacts(s: State)
    requires Inv(s) && Due(s)
    ensures Ready(s) && Distance(s.workers[s.worker.value].pc) <= STEPS_TO_CHECK
  {
    hide CountOk;
    hide AnswersOk;
    hide ProbesOk;
    var w := s.worker.value;
    assert WorkerOk(s.workers[w], true, Spare(s) == Some(w)) && ReadingOk(s.workers[w], w, s.probes);
  }

  lemma DueDecides(s: State)
    requires Linked(s) && Ready(s) && s.workers[s.worker.value].pc.Decide?
    ensures Nearer(s, Ticked(AfterDecide(s, s.worker.value)))
  {
  }

  lemma DueFinishes(s: State)
    requires Linked(s) && Ready(s)
    requires var pc := s.workers[s.worker.value].pc; pc.FinishReady? || pc.FinishFinished?
    ensures Nearer(s, Ticked(AfterFinish(s, s.worker.value)))
  {
  }

  lemma DueParks(s: State)
    requires Linked(s) && Ready(s)
    requires var pc := s.workers[s.worker.value].pc; pc.SetIdle? || pc.Wait? || pc.ClearRequested? || pc.ClearIdle?
    ensures Nearer(s, Ticked(Put(s, s.worker.value, Parking(s.workers[s.worker.value]))))
  {
  }

  lemma DueReads(s: State)
    requires Linked(s) && Ready(s) && s.workers[s.worker.value].pc.ReadProbe?
    ensures Nearer(s, Ticked(AfterRead(s, s.worker.value)))
  {
  }

  /** One operation of that worker brings the check closer or begins it. */
  lemma DueStep(s: State)
    requires Linked(s) && Ready(s)
    ensures Nearer(s, Next(s, WorkerStep(s.worker.value)))
  {
    hide Nearer;
    hide Parking;
    hide AfterRead;
    hide AfterDecide;
    hide AfterFinish;
    hide Awaited;
    match s.workers[s.worker.value].pc
    case Decide(_) => DueDecides(s);
    case FinishReady(_, _) => DueFinishes(s);
    case FinishFinished(_) => DueFinishes(s);
    case ReadProbe => DueReads(s);
    case SetIdle => DueParks(s);
    case Wait => DueParks(s);
    case ClearRequested => DueParks(s);
    case ClearIdle => DueParks(s);
    case _ =>
  }

  lemma {:induction false} ChecksInTime(s: State)
    requires Inv(s) && Due(s)
    ensures var (p, w) := (s.probe.value, s.probes[s.probe.value].server);
      && w < |s.workers|
      && exists k | 0 <= k <= Distance(s.workers[w].pc) :: CheckBegun(Run(s, Own(w, k)), p)
    decreases if s.worker.Some? && s.worker.value < |s.workers| then Distance(s.workers[s.worker.value].pc) else 0
  {
    hide Inv;
    hide Next;
    InvIsLinked(s);
    DueFacts(s);
    DueStep(s);
    StepKeeps(s, WorkerStep(s.worker.value));
    var p, w := s.probe.value, s.worker.value;
    var n := Next(s, WorkerStep(w));
    if n.probes[p].checks == 1 {
      assert Run(s, Own(w, 1)) == Run(n, Own(w, 0)) == n;
      assert CheckBegun(Run(s, Own(w, 1)), p);
    } else {
      DueFacts(n);
      ChecksInTime(n);
      var k :| 0 <= k <= Distance(n.workers[w].pc) && CheckBegun(Run(n, Own(w, k)), p);
      assert Own(w, k + 1)[1..] == Own(w, k);
      assert CheckBegun(Run(s, Own(w, k + 1)), p);
    }
  }

  // ---- a probe handed to a dying worker -----------------------------------------------------

  /** Probes are never removed, and whom a probe was handed to is settled with it. */
  predicate HandOffKept(s: State, n: State) {
    && |s.probes| <= |n.probes|
    && forall i | 0 <= i < |s.probes| :: n.probes[i].toDying == s.probes[i].toDying
  }

  lemma DecideKeepsHandOff(s: State, w: nat)
    requires Linked(s) && w < |s.workers| && s.workers[w].pc.Decide?
    ensures HandOffKept(s, AfterDecide(s, w))
  {
  }

  lemma FinishKeepsHandOff(s: State, w: nat)
    requires Linked(s) && w < |s.workers|
    requires s.workers[w].pc.FinishIdle? || s.workers[w].pc.FinishReady? || s.workers[w].pc.FinishFinished?
    ensures HandOffKept(s, AfterFinish(s, w))
  {
  }

  lemma WorkerStepKeepsHandOff(s: State, w: nat)
    requires Linked(s) && w < |s.workers|
    ensures HandOffKept(s, AfterWorkerStep(s, w))
  {
    hide Linked;
    hide AfterDecide;
    hide AfterFinish;
    hide Parking;
    var pc := s.workers[w].pc;
    if pc.Decide? { DecideKeepsHandOff(s, w); }
    if pc.FinishIdle? || pc.FinishReady? || pc.FinishFinished? { FinishKeepsHandOff(s, w); }
  }

  lemma PublishKeepsHandOff(s: State)
    requires Linked(s) && s.lock.Publishing?
    ensures HandOffKept(s, AfterPublish(s))
  {
  }

  lemma CheckKeepsHandOff(s: State, w: nat, passed: bool, escaped: bool)
    requires Linked(s) && w < |s.workers|
    ensures HandOffKept(s, AfterCheck(s, w, passed, escaped))
  {
  }

  lemma StepKeepsHandOff(s: State, step: Step)
    requires Linked(s)
    ensures HandOffKept(s, Next(s, step))
  {
    hide Linked;
    hide AfterWorkerStep;
    hide AfterPublish;
    hide AfterCheck;
    match step
    case WorkerStep(w) => if w < |s.workers| { WorkerStepKeepsHandOff(s, w); }
    case Publish => if s.lock.Publishing? { PublishKeepsHandOff(s); }
    case CheckReturns(w, passed) => if w < |s.workers| { CheckKeepsHandOff(s, w, passed, false); }
    case CheckEscapes(w) => if w < |s.workers| { CheckKeepsHandOff(s, w, false, true); }
    case _ =>
  }

  lemma {:induction false} RunKeepsHandOff(s: State, steps: seq<Step>)
    requires Linked(s)
    ensures HandOffKept(s, Run(s, steps))
    decreases |steps|
  {
    hide Linked;
    hide Next;
    if steps != [] {
      StepKeepsHandOff(s, steps[0]);
      RunKeepsHandOff(Next(s, steps[0]), steps[1..]);
    }
  }

  lemma NeverChecked(s: State, more: seq<Step>, p: nat)
    requires Inv(s) && p < |s.probes| && s.probes[p].toDying
    ensures !CheckBegun(Run(s, more), p)
  {
    hide Linked;
    hide Run;
    InvIsLinked(s);
    RunKeeps(s, more);
    RunKeepsHandOff(s, more);
    var n := Run(s, more);
    assert ProbeOk(n.probes[p], p, n.workers, n.clock + n.timeout, n.at);
  }

  // ---- the exact condition ------------------------------------------------------------------

  /** In every interleaving, the check of an awaited probe is within eight operations of the worker it was handed to
      if that worker was not already dying; and if it was, no continuation whatever begins the check. */
  lemma CheckedInTimeExactlyUnlessHandedToDying(cap: int, timeout: int, cancellable: bool, clock: int,
                                                steps: seq<Step>)
    ensures var s := Run(Initial(cap, timeout, cancellable, clock), steps);
      Awaited(s) ==>
        var (p, w) := (s.probe.value, s.probes[s.probe.value].server);
        && (!s.probes[p].toDying ==> exists k | 0 <= k <= STEPS_TO_CHECK :: CheckBegun(Run(s, Own(w, k)), p))
        && (s.probes[p].toDying ==> forall more :: !CheckBegun(Run(s, more), p))
  {
    hide Inv;
    hide Run;
    var s := Run(Initial(cap, timeout, cancellable, clock), steps);
    ReadinessProbeTheorems.Reachable(cap, timeout, cancellable, clock, steps);
    if Awaited(s) {
      var p, w := s.probe.value, s.probes[s.probe.value].server;
      if s.probes[p].toDying {
        forall more ensures !CheckBegun(Run(s, more), p) { NeverChecked(s, more, p); }
      } else if s.probes[p].checks == 0 {
        DueFacts(s);
        ChecksInTime(s);
      } else {
        AlreadyBegun(s, p);
        NoSteps(s, w);
        assert CheckBegun(Run(s, Own(w, 0)), p);
      }
    }
  }

  lemma NoSteps(s: State, w: nat)
    requires Linked(s)
    ensures Run(s, Own(w, 0)) == s
  {
  }

  lemma AlreadyBegun(s: State, p: nat)
    requires Inv(s) && p < |s.probes| && !s.probes[p].finished && s.probes[p].checks > 0
    ensures CheckBegun(s, p)
  {
    hide ControlOk;
    hide CountOk;
    assert ProbeOk(s.probes[p], p, s.workers, s.clock + s.timeout, s.at);
  }
}
