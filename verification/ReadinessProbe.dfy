/** The bounded readiness probe as a protocol: callers, a replaceable worker, abandoned workers, a closer and
    a reclaimer, interleaved at every lock section and every Event operation. */
module ReadinessProbe {
  import opened Common

  /** Where a worker stands in its serve loop, named by the operation it performs next. */
  datatype Pc =
    | SetIdle | Wait | ClearRequested | ClearIdle | ReadProbe
    | Decide(target: nat)
    | Checking(target: nat)
    | FinishIdle(target: nat, passed: bool)
    | FinishReady(target: nat, passed: bool)
    | FinishFinished(target: nat)
    | Release
    | Gone
  {
    predicate HasTarget() { Decide? || Checking? || FinishIdle? || FinishReady? || FinishFinished? }
  }

  /** `dying`: a BaseException has left the check and is unwinding the thread. */
  datatype Worker = Worker(requested: bool, idle: bool, abandoned: bool, counted: bool, dying: bool, pc: Pc) {
    /** Inside the check of p or finishing it. */
    predicate Serving(p: nat) {
      pc == Checking(p) || pc == FinishFinished(p)
      || (pc.FinishIdle? && pc.target == p) || (pc.FinishReady? && pc.target == p)
    }

    predicate Reading(p: nat) { pc == Decide(p) || Serving(p) }
  }

  /** `server` is the worker the probe was handed to, `toDying` whether that worker was dying; `checks`,
      `checkedAt` and `checkPassed` record what was run for it. */
  datatype Probe = Probe(deadline: int, finished: bool, ready: bool, createdAt: nat, server: nat, toDying: bool,
                         checks: nat, checkedAt: nat, checkPassed: bool)

  /** What the caller holding the lock does next; `now` is its reading of the clock. */
  datatype Lock =
    | Free
    | ReadingIdle(now: int)
    | Replacing(now: int, w: nat)
    | Waking(now: int, w: nat)
    | Counting(now: int, w: nat)
    | Starting(now: int)
    | Publishing(now: int, w: nat)

  /** What close() does next: after its lock section it sets the reclaimer's event, then marks and wakes the worker
      it took over. */
  datatype Closer =
    | Open
    | Reclaiming(taken: Option<nat>)
    | Abandoning(w: nat)
    | Signalling(w: nat)
    | Done(stopped: Option<nat>)

  datatype Answer = Answer(p: Option<nat>, value: bool)

  datatype State = State(
    cap: int, timeout: int, cancellable: bool,
    clock: int, at: nat,
    lock: Lock, closer: Closer,
    probe: Option<nat>, worker: Option<nat>,
    abandoned: int, limitHits: nat, reclaim: bool,
    workers: seq<Worker>, probes: seq<Probe>, answers: seq<Answer>)
  {
    predicate Closed() { !closer.Open? }

    function FailClosed(): State { this.(lock := Free, answers := answers + [Answer(None, false)]) }
  }

  datatype Step =
    | Tick(to: int)
    | Enter | ReadIdle | Replace | Wake | Count | Start(started: bool) | Publish
    | Close | CloserStep
    | ReclaimerClears
    | WorkerStep(w: nat)
    | CheckReturns(w: nat, passed: bool)
    | CheckEscapes(w: nat)
    | Return(p: nat)

  function Fresh(): Worker { Worker(false, false, false, false, false, SetIdle) }

  /** References inside the state point at existing workers and probes. */
  predicate Linked(s: State) {
    && (s.probe.Some? ==> s.probe.value < |s.probes|)
    && (s.worker.Some? ==> s.worker.value < |s.workers|)
    && (s.lock.Replacing? || s.lock.Waking? || s.lock.Counting? || s.lock.Publishing? ==> s.lock.w < |s.workers|)
    && (s.closer.Reclaiming? && s.closer.taken.Some? ==> s.closer.taken.value < |s.workers|)
    && (s.closer.Abandoning? || s.closer.Signalling? ==> s.closer.w < |s.workers|)
    && (forall w | 0 <= w < |s.workers| && s.workers[w].pc.HasTarget() :: s.workers[w].pc.target < |s.probes|)
  }

  /** Acquire the lock; refuse when closed, join an unfinished unexpired probe, otherwise replace it. */
  function AfterEnter(s: State): (after: State)
    requires Linked(s) && s.lock.Free?
    ensures Linked(after)
  {
    if s.Closed() then s.FailClosed()
    else if s.probe.None? || s.probes[s.probe.value].finished || s.probes[s.probe.value].deadline <= s.clock then
      s.(lock := ReadingIdle(s.clock))
    else s
  }

  function AfterReadIdle(s: State): (after: State)
    requires Linked(s) && s.lock.ReadingIdle?
    ensures Linked(after)
  {
    var now := s.lock.now;
    if s.worker.None? then s.(lock := Starting(now))
    else if s.workers[s.worker.value].idle then s.(lock := Publishing(now, s.worker.value))
    else s.(lock := Replacing(now, s.worker.value))
  }

  /** At the cap the blocked worker stays recorded and the call fails closed. */
  function AfterReplace(s: State): (after: State)
    requires Linked(s) && s.lock.Replacing?
    ensures Linked(after)
  {
    var alive := !s.workers[s.lock.w].pc.Gone?;
    if alive && s.abandoned >= s.cap then
      s.(limitHits := s.limitHits + 1, reclaim := s.reclaim || s.cancellable).FailClosed()
    else
      s.(worker := None, lock := Waking(s.lock.now, s.lock.w),
         workers := s.workers[s.lock.w := s.workers[s.lock.w].(abandoned := true)])
  }

  function AfterWake(s: State): (after: State)
    requires Linked(s) && s.lock.Waking?
    ensures Linked(after)
  {
    s.(lock := Counting(s.lock.now, s.lock.w),
       workers := s.workers[s.lock.w := s.workers[s.lock.w].(requested := true)])
  }

  function AfterCount(s: State): (after: State)
    requires Linked(s) && s.lock.Counting?
    ensures Linked(after)
  {
    var starting := s.(lock := Starting(s.lock.now));
    if s.workers[s.lock.w].pc.Gone? then starting
    else starting.(abandoned := s.abandoned + 1, reclaim := s.reclaim || s.cancellable,
                   workers := s.workers[s.lock.w := s.workers[s.lock.w].(counted := true)])
  }

  function AfterStart(s: State, started: bool): (after: State)
    requires Linked(s) && s.lock.Starting?
    ensures Linked(after)
  {
    if !started then s.FailClosed()
    else s.(workers := s.workers + [Fresh()], worker := Some(|s.workers|), lock := Publishing(s.lock.now, |s.workers|))
  }

  /** Install the new probe and signal the worker chosen for it. */
  function AfterPublish(s: State): (after: State)
    requires Linked(s) && s.lock.Publishing?
    ensures Linked(after)
  {
    var w := s.lock.w;
    s.(lock := Free, probe := Some(|s.probes|),
       probes := s.probes + [Probe(s.lock.now + s.timeout, false, false, s.at, w, s.workers[w].dying, 0, 0, false)],
       workers := s.workers[w := s.workers[w].(requested := true)])
  }

  function AfterClose(s: State): (after: State)
    requires Linked(s) && s.lock.Free?
    ensures Linked(after)
  {
    if s.Closed() then s
    else s.(worker := None, closer := Reclaiming(s.worker))
  }

  function AfterCloserStep(s: State): (after: State)
    requires Linked(s)
    ensures Linked(after)
  {
    match s.closer
    case Reclaiming(taken) =>
      s.(reclaim := true, closer := if taken.Some? then Abandoning(taken.value) else Done(None))
    case Abandoning(w) => s.(closer := Signalling(w), workers := s.workers[w := s.workers[w].(abandoned := true)])
    case Signalling(w) => s.(closer := Done(Some(w)), workers := s.workers[w := s.workers[w].(requested := true)])
    case _ => s
  }

  /** _release_worker, in the outer finally of the serve loop. */
  function AfterRelease(s: State, w: nat): (after: State)
    requires Linked(s) && w < |s.workers|
    ensures Linked(after)
  {
    s.(abandoned := if s.workers[w].counted then s.abandoned - 1 else s.abandoned,
       worker := if s.worker == Some(w) then None else s.worker,
       workers := s.workers[w := s.workers[w].(counted := false, pc := Gone)])
  }

  function Put(s: State, w: nat, x: Worker): (after: State)
    requires Linked(s) && w < |s.workers| && (x.pc.HasTarget() ==> x.pc.target < |s.probes|)
    ensures Linked(after)
  {
    s.(workers := s.workers[w := x])
  }

  function PutProbe(s: State, p: nat, x: Probe): (after: State)
    requires Linked(s) && p < |s.probes|
    ensures Linked(after)
  {
    s.(probes := s.probes[p := x])
  }

  /** The operations between a served probe and the next reading of one. */
  function Parking(x: Worker): Worker {
    match x.pc
    case SetIdle => x.(idle := true, pc := Wait)
    case Wait => if x.requested then x.(pc := ClearRequested) else x
    case ClearRequested => x.(requested := false, pc := ClearIdle)
    case ClearIdle => x.(idle := false, pc := ReadProbe)
    case _ => x
  }

  /** Under the lock: leave when closed or abandoned, otherwise take the current probe. */
  function AfterRead(s: State, w: nat): (after: State)
    requires Linked(s) && w < |s.workers|
    ensures Linked(after)
  {
    var x := s.workers[w];
    if !s.lock.Free? then s
    else if s.Closed() || x.abandoned then Put(s, w, x.(pc := Release))
    else Put(s, w, x.(pc := if s.probe.None? then SetIdle else Decide(s.probe.value)))
  }

  function AfterDecide(s: State, w: nat): (after: State)
    requires Linked(s) && w < |s.workers| && s.workers[w].pc.Decide?
    ensures Linked(after)
  {
    var x := s.workers[w];
    var p := s.probes[x.pc.target];
    if p.finished then Put(s, w, x.(pc := SetIdle))
    else
      PutProbe(Put(s, w, x.(pc := Checking(x.pc.target))), x.pc.target,
               p.(checks := p.checks + 1, checkedAt := s.at))
  }

  /** The inner finally: idle, then the result, then finished. */
  function Finishing(x: Worker): Worker {
    match x.pc
    case FinishIdle(p, passed) => x.(idle := true, pc := FinishReady(p, passed))
    case FinishReady(p, passed) => x.(pc := FinishFinished(p))
    case FinishFinished(p) => x.(pc := if x.dying then Release else SetIdle)
    case _ => x
  }

  function Finished(x: Worker, p: Probe): Probe {
    match x.pc
    case FinishReady(_, passed) => p.(ready := passed)
    case FinishFinished(_) => p.(finished := true)
    case _ => p
  }

  function AfterFinish(s: State, w: nat): (after: State)
    requires Linked(s) && w < |s.workers|
    requires s.workers[w].pc.FinishIdle? || s.workers[w].pc.FinishReady? || s.workers[w].pc.FinishFinished?
    ensures Linked(after)
  {
    var x := s.workers[w];
    PutProbe(Put(s, w, Finishing(x)), x.pc.target, Finished(x, s.probes[x.pc.target]))
  }

  /** One operation of a worker outside the check. */
  function AfterWorkerStep(s: State, w: nat): (after: State)
    requires Linked(s) && w < |s.workers|
    ensures Linked(after)
  {
    var pc := s.workers[w].pc;
    if pc.ReadProbe? then AfterRead(s, w)
    else if pc.Decide? then AfterDecide(s, w)
    else if pc.FinishIdle? || pc.FinishReady? || pc.FinishFinished? then AfterFinish(s, w)
    else if pc.Release? then (if s.lock.Free? then AfterRelease(s, w) else s)
    else Put(s, w, Parking(s.workers[w]))
  }

  function AfterCheck(s: State, w: nat, passed: bool, escaped: bool): (after: State)
    requires Linked(s) && w < |s.workers|
    ensures Linked(after)
  {
    var x := s.workers[w];
    if x.pc.Checking? then
      PutProbe(Put(s, w, x.(dying := escaped, pc := FinishIdle(x.pc.target, passed))),
               x.pc.target, s.probes[x.pc.target].(checkPassed := passed))
    else s
  }

  /** A caller waiting on p: its result once finished, False from its deadline on. */
  function AfterReturn(s: State, p: nat): (after: State)
    requires Linked(s)
    ensures Linked(after)
  {
    if p < |s.probes| && (s.probes[p].finished || s.probes[p].deadline <= s.clock) then
      s.(answers := s.answers + [Answer(Some(p), s.probes[p].finished && s.probes[p].ready)])
    else s
  }

  function Ticked(s: State): State { s.(at := s.at + 1) }

  function Next(s: State, step: Step): (next: State)
    requires Linked(s)
    ensures Linked(next)
  {
    var after := match step
      case Tick(to) => if s.clock <= to then s.(clock := to) else s
      case Enter => if s.lock.Free? then AfterEnter(s) else s
      case ReadIdle => if s.lock.ReadingIdle? then AfterReadIdle(s) else s
      case Replace => if s.lock.Replacing? then AfterReplace(s) else s
      case Wake => if s.lock.Waking? then AfterWake(s) else s
      case Count => if s.lock.Counting? then AfterCount(s) else s
      case Start(started) => if s.lock.Starting? then AfterStart(s, started) else s
      case Publish => if s.lock.Publishing? then AfterPublish(s) else s
      case Close => if s.lock.Free? then AfterClose(s) else s
      case CloserStep => AfterCloserStep(s)
      case ReclaimerClears => if s.lock.Free? && s.abandoned == 0 then s.(reclaim := false) else s
      case WorkerStep(w) => if w < |s.workers| then AfterWorkerStep(s, w) else s
      case CheckReturns(w, passed) => if w < |s.workers| then AfterCheck(s, w, passed, false) else s
      case CheckEscapes(w) => if w < |s.workers| then AfterCheck(s, w, false, true) else s
      case Return(p) => AfterReturn(s, p);
    Ticked(after)
  }

  function Run(s: State, steps: seq<Step>): (end: State)
    requires Linked(s)
    ensures Linked(end)
    decreases |steps|
  {
    if steps == [] then s else Run(Next(s, steps[0]), steps[1..])
  }

  function Initial(cap: int, timeout: int, cancellable: bool, clock: int): State {
    State(cap, timeout, cancellable, clock, 0, Free, Open, None, None, 0, 0, false, [], [], [])
  }
}
