/** What every interleaving of the readiness probe keeps. */
module ReadinessProbeSafety {
  import opened Common
  import opened ReadinessProbe

  // ---- the invariant ------------------------------------------------------------------------

  /** The one live worker that need not be counted: the recorded one, the one being replaced, or the one a
      closer took over. */
  function Spare(s: State): Option<nat> {
    if s.worker.Some? then s.worker
    else if s.lock.Waking? || s.lock.Counting? then Some(s.lock.w)
    else match s.closer
         case Open => None
         case Reclaiming(taken) => taken
         case Abandoning(w) => Some(w)
         case Signalling(w) => Some(w)
         case Done(stopped) => stopped
  }

  predicate Parked(pc: Pc) { !pc.ReadProbe? && !pc.Decide? && !pc.Checking? && !pc.FinishIdle? }

  /** On its way through a probe it has read, with `idle` still clear. */
  predicate Busy(pc: Pc) { pc.Decide? || pc.Checking? || pc.FinishIdle? }

  /** Signalled, or past the signal and about to leave. */
  predicate Woken(x: Worker) { x.requested || x.pc.ClearIdle? || x.pc.ReadProbe? || x.pc.Release? }

  predicate WorkerOk(x: Worker, isRecorded: bool, isSpare: bool) {
    && (x.pc.Gone? ==> !x.counted && !isRecorded)
    && (x.counted ==> x.abandoned && !isRecorded && Woken(x))
    && (isRecorded ==> !x.abandoned && (x.pc.Release? ==> x.dying))
    && (!x.pc.Gone? && !x.counted ==> isSpare)
    && (x.dying ==> x.pc.FinishIdle? || x.pc.FinishReady? || x.pc.FinishFinished? || x.pc.Release? || x.pc.Gone?)
    && (x.idle ==> Parked(x.pc))
  }

  predicate WorkersOk(workers: seq<Worker>, recorded: Option<nat>, spare: Option<nat>) {
    forall w | 0 <= w < |workers| :: WorkerOk(workers[w], recorded == Some(w), spare == Some(w))
  }

  /** The probe a worker has read is finished or its own; a check runs on an unfinished probe, once. */
  predicate ReadingOk(x: Worker, w: nat, probes: seq<Probe>) {
    x.pc.HasTarget() ==>
      && x.pc.target < |probes|
      && var p := probes[x.pc.target];
      && (x.pc.Decide? ==> p.finished || p.server == w)
      && (!x.pc.Decide? ==> p.server == w && !p.finished && p.checks == 1)
      && (x.pc.FinishIdle? || x.pc.FinishReady? ==> p.checkPassed == x.pc.passed)
      && (x.pc.Checking? || x.pc.FinishIdle? ==> !p.ready)
      && (x.pc.FinishFinished? ==> p.ready == p.checkPassed)
  }

  predicate ReadingsOk(workers: seq<Worker>, probes: seq<Probe>) {
    forall w | 0 <= w < |workers| :: ReadingOk(workers[w], w, probes)
  }

  /** `horizon` is the latest deadline a probe made now would have. */
  predicate ProbeOk(p: Probe, i: nat, workers: seq<Worker>, horizon: int, at: nat) {
    && p.server < |workers| && p.checks <= 1 && p.deadline <= horizon && p.createdAt < at
    && (!p.finished && p.checks > 0 ==> workers[p.server].Serving(i))
    && (p.checks > 0 ==> p.createdAt < p.checkedAt < at)
    && (p.ready ==> p.checkPassed) && (p.checkPassed ==> p.checks == 1)
    && (p.finished ==> p.checks == 1 && p.ready == p.checkPassed)
    && (p.toDying ==> workers[p.server].dying && p.checks == 0)
  }

  predicate ProbesOk(probes: seq<Probe>, workers: seq<Worker>, horizon: int, at: nat) {
    forall i | 0 <= i < |probes| :: ProbeOk(probes[i], i, workers, horizon, at)
  }

  /** The current probe no longer stands in the way of a new one. */
  predicate Replaceable(s: State)
    requires Linked(s)
  {
    s.probe.Some? ==> s.probes[s.probe.value].finished || s.probes[s.probe.value].deadline <= s.clock
  }

  /** What holds while a caller is inside the lock section. */
  predicate LockOk(s: State)
    requires Linked(s)
  {
    && (s.Closed() ==> s.lock.Free? && s.worker.None?)
    && (!s.lock.Free? ==> s.lock.now <= s.clock && Replaceable(s))
    && (s.lock.Replacing? ==> s.worker == Some(s.lock.w))
    && (s.lock.Publishing? ==> s.worker == Some(s.lock.w) && !Busy(s.workers[s.lock.w].pc))
    && (s.lock.Starting? ==> s.worker.None?)
    && (s.lock.Waking? || s.lock.Counting? ==>
          var x := s.workers[s.lock.w];
          s.worker.None? && x.abandoned && !x.counted && !x.pc.Gone? && s.abandoned < s.cap)
    && (s.lock.Counting? ==> Woken(s.workers[s.lock.w]))
  }

  function Counted(workers: seq<Worker>): set<nat> {
    set w | 0 <= w < |workers| && workers[w].counted
  }

  predicate CountOk(s: State) {
    && s.abandoned == |Counted(s.workers)| && (s.abandoned <= s.cap || s.abandoned == 0)
    && (s.cancellable && !s.Closed() && s.abandoned > 0 ==> s.reclaim)
  }

  /** The recorded worker is the server of the current unfinished probe, and is busy with no other probe. */
  predicate CurrentOk(s: State)
    requires Linked(s)
  {
    s.worker.Some? && s.probe.Some? ==>
      && (!s.lock.Publishing? && !s.probes[s.probe.value].finished ==> s.probes[s.probe.value].server == s.worker.value)
      && (Busy(s.workers[s.worker.value].pc) ==> s.workers[s.worker.value].pc.target == s.probe.value)
  }

  predicate NoProbeNotBusy(s: State)
    requires Linked(s)
  {
    s.worker.Some? && s.probe.None? ==> !Busy(s.workers[s.worker.value].pc)
  }

  /** The recorded worker will get to p: it has read p, or is between waking and reading, or has been signalled. */
  predicate Served(s: State, p: nat)
    requires Linked(s)
  {
    s.worker.Some? &&
    var x := s.workers[s.worker.value];
    x.Reading(p) || (!x.dying && (x.requested || x.pc.ClearIdle? || x.pc.ReadProbe?))
  }

  /** An open probe whose current request is neither finished nor expired. */
  predicate Awaited(s: State)
    requires Linked(s)
  {
    && !s.Closed() && s.lock.Free? && s.probe.Some?
    && !s.probes[s.probe.value].finished && s.clock < s.probes[s.probe.value].deadline
  }

  predicate WakeOk(s: State)
    requires Linked(s)
  {
    Awaited(s) && !s.probes[s.probe.value].toDying ==> Served(s, s.probe.value)
  }

  predicate AnswerOk(a: Answer, probes: seq<Probe>) {
    a.value ==> a.p.Some? && a.p.value < |probes| && probes[a.p.value].finished && probes[a.p.value].ready
  }

  predicate AnswersOk(answers: seq<Answer>, probes: seq<Probe>) {
    forall a | a in answers :: AnswerOk(a, probes)
  }

  predicate ControlOk(s: State)
    requires Linked(s)
  {
    LockOk(s) && CurrentOk(s) && NoProbeNotBusy(s) && WakeOk(s)
  }

  predicate Inv(s: State) {
    && Linked(s) && WorkersOk(s.workers, s.worker, Spare(s)) && ReadingsOk(s.workers, s.probes)
    && ProbesOk(s.probes, s.workers, s.clock + s.timeout, s.at) && CountOk(s) && AnswersOk(s.answers, s.probes)
    && ControlOk(s)
  }

  lemma Starts(cap: int, timeout: int, cancellable: bool, clock: int)
    ensures Inv(Initial(cap, timeout, cancellable, clock))
  {
    assert Counted([]) == {};
  }

  // ---- lock sections ------------------------------------------------------------------------


  lemma ProbesLater(probes: seq<Probe>, workers: seq<Worker>, horizon: int, at: nat, horizon': int, at': nat)
    requires ProbesOk(probes, workers, horizon, at) && horizon <= horizon' && at <= at'
    ensures ProbesOk(probes, workers, horizon', at')
  {
    forall i | 0 <= i < |probes| ensures ProbeOk(probes[i], i, workers, horizon', at') {
      assert ProbeOk(probes[i], i, workers, horizon, at);
    }
  }

  lemma ReadingPut(workers: seq<Worker>, probes: seq<Probe>, w: nat, x: Worker)
    requires ReadingsOk(workers, probes) && w < |workers| && ReadingOk(x, w, probes)
    ensures ReadingsOk(workers[w := x], probes)
  {
    hide ReadingOk;
  }

  lemma ProbesPut(probes: seq<Probe>, workers: seq<Worker>, horizon: int, at: nat, w: nat, x: Worker)
    requires ProbesOk(probes, workers, horizon, at) && w < |workers|
    requires workers[w].dying ==> x.dying
    requires forall i | 0 <= i < |probes| && !probes[i].finished && workers[w].Serving(i) :: x.Serving(i)
    ensures ProbesOk(probes, workers[w := x], horizon, at)
  {
    forall i | 0 <= i < |probes| ensures ProbeOk(probes[i], i, workers[w := x], horizon, at) {
      assert ProbeOk(probes[i], i, workers, horizon, at);
    }
  }

  /** One worker changes, and with it perhaps whether it is the recorded or the spare one. */
  lemma WorkerPut(workers: seq<Worker>, recorded: Option<nat>, spare: Option<nat>, w: nat, x: Worker,
                  recorded': Option<nat>, spare': Option<nat>)
    requires WorkersOk(workers, recorded, spare) && w < |workers|
    requires WorkerOk(x, recorded' == Some(w), spare' == Some(w))
    requires recorded == recorded' || (recorded == Some(w) && recorded'.None?)
    requires spare == spare' || spare == Some(w) || spare.None?
    ensures WorkersOk(workers[w := x], recorded', spare')
  {
    forall v | 0 <= v < |workers| && v != w ensures WorkerOk(workers[v], recorded' == Some(v), spare' == Some(v)) {
      assert WorkerOk(workers[v], recorded == Some(v), spare == Some(v));
    }
    hide WorkerOk;
  }

  /** One worker changes without touching the count; the rest of the bookkeeping is the caller's to show. */
  lemma PutKeeps(s: State, w: nat, x: Worker)
    requires Inv(s) && w < |s.workers| && x.counted == s.workers[w].counted
    requires WorkerOk(x, s.worker == Some(w), Spare(s) == Some(w)) && ReadingOk(x, w, s.probes)
    requires s.workers[w].dying ==> x.dying
    requires forall i | 0 <= i < |s.probes| && !s.probes[i].finished && s.workers[w].Serving(i) :: x.Serving(i)
    requires Linked(Put(s, w, x)) && ControlOk(Put(s, w, x))
    ensures Inv(Put(s, w, x))
  {
    hide ControlOk;
    WorkerPut(s.workers, s.worker, Spare(s), w, x, s.worker, Spare(s));
    ReadingPut(s.workers, s.probes, w, x);
    ProbesPut(s.probes, s.workers, s.clock + s.timeout, s.at, w, x);
    hide WorkersOk;
    hide ReadingsOk;
    hide ProbesOk;
    hide AnswersOk;
    hide WorkerOk;
    hide ReadingOk;
    assert Counted(s.workers[w := x]) == Counted(s.workers);
  }

  lemma AnswerAdded(answers: seq<Answer>, probes: seq<Probe>, a: Answer)
    requires AnswersOk(answers, probes) && AnswerOk(a, probes)
    ensures AnswersOk(answers + [a], probes)
  {
  }

  lemma Later(s: State)
    requires Inv(s)
    ensures Inv(Ticked(s))
  {
    hide ProbesOk;
    hide WorkersOk;
    hide ReadingsOk;
    hide AnswersOk;
    ProbesLater(s.probes, s.workers, s.clock + s.timeout, s.at, s.clock + s.timeout, s.at + 1);
  }

  lemma TickStep(s: State, to: int)
    requires Inv(s) && s.clock <= to
    ensures Inv(s.(clock := to))
  {
    hide ProbesOk;
    hide WorkersOk;
    hide ReadingsOk;
    hide AnswersOk;
    ProbesLater(s.probes, s.workers, s.clock + s.timeout, s.at, to + s.timeout, s.at);
  }

  lemma Answered(s: State, a: Answer)
    requires Inv(s) && AnswerOk(a, s.probes)
    ensures Inv(s.(answers := s.answers + [a]))
  {
    AnswerAdded(s.answers, s.probes, a);
    hide ProbesOk;
    hide WorkersOk;
    hide ReadingsOk;
    hide AnswersOk;
    hide Counted;
  }

  /** Leaving the lock section without a new probe. */
  lemma FailedClosed(s: State)
    requires Inv(s) && (s.lock.Free? || s.lock.Replacing? || s.lock.Starting?)
    ensures Inv(s.FailClosed())
  {
    Answered(s, Answer(None, false));
    hide ProbesOk;
    hide WorkersOk;
    hide ReadingsOk;
    hide AnswersOk;
    hide Counted;
  }

  lemma EnterStep(s: State)
    requires Inv(s) && s.lock.Free?
    ensures Inv(AfterEnter(s))
  {
    hide ProbesOk;
    hide WorkersOk;
    hide ReadingsOk;
    hide AnswersOk;
    hide Counted;
    if s.Closed() {
      hide Inv;
      FailedClosed(s);
    } else if AfterEnter(s) != s {
      assert AfterEnter(s) == s.(lock := ReadingIdle(s.clock));
    }
  }

  lemma ReadIdleStep(s: State)
    requires Inv(s) && s.lock.ReadingIdle?
    ensures Inv(AfterReadIdle(s))
  {
    if s.worker.Some? { assert WorkerOk(s.workers[s.worker.value], true, true); }
    hide ProbesOk;
    hide WorkersOk;
    hide ReadingsOk;
    hide AnswersOk;
    hide CountOk;
    if s.worker.None? {
      assert AfterReadIdle(s) == s.(lock := Starting(s.lock.now));
    } else if s.workers[s.worker.value].idle {
      assert AfterReadIdle(s) == s.(lock := Publishing(s.lock.now, s.worker.value));
    } else {
      assert AfterReadIdle(s) == s.(lock := Replacing(s.lock.now, s.worker.value));
    }
  }

  lemma LimitHit(s: State)
    requires Inv(s)
    ensures Inv(s.(limitHits := s.limitHits + 1, reclaim := s.reclaim || s.cancellable))
  {
    hide ProbesOk;
    hide WorkersOk;
    hide ReadingsOk;
    hide AnswersOk;
    hide Counted;
  }

  lemma CountMarked(workers: seq<Worker>, w: nat, x: Worker)
    requires w < |workers|
    ensures Counted(workers[w := x]) == if x.counted then Counted(workers) + {w} else Counted(workers) - {w}
    ensures x.counted == workers[w].counted ==> Counted(workers[w := x]) == Counted(workers)
  {
  }

  /** Marking a worker keeps what it reads and serves. */
  lemma MarkKeeps(s: State, w: nat, x: Worker, recorded: Option<nat>, spare: Option<nat>)
    requires Inv(s) && w < |s.workers| && x.pc == s.workers[w].pc && x.dying == s.workers[w].dying
    requires s.worker == recorded || (s.worker == Some(w) && recorded.None?)
    requires Spare(s) == spare || Spare(s) == Some(w)
    requires WorkerOk(x, recorded == Some(w), spare == Some(w))
    ensures ReadingsOk(s.workers[w := x], s.probes)
    ensures ProbesOk(s.probes, s.workers[w := x], s.clock + s.timeout, s.at)
    ensures WorkersOk(s.workers[w := x], recorded, spare)
    ensures Counted(s.workers[w := x]) == if x.counted then Counted(s.workers) + {w} else Counted(s.workers) - {w}
    ensures x.counted == s.workers[w].counted ==> Counted(s.workers[w := x]) == Counted(s.workers)
  {
    hide WorkersOk;
    hide ProbesOk;
    hide AnswersOk;
    hide ControlOk;
    hide Counted;
    hide WorkerOk;
    CountMarked(s.workers, w, x);
    assert ReadingOk(s.workers[w], w, s.probes);
    ReadingPut(s.workers, s.probes, w, x);
    ProbesPut(s.probes, s.workers, s.clock + s.timeout, s.at, w, x);
    WorkerPut(s.workers, s.worker, Spare(s), w, x, recorded, spare);
  }

  /** Between giving up one worker and having the next, there is little to control. */
  lemma BetweenWorkers(s: State)
    requires Linked(s) && !s.Closed() && s.worker.None? && Replaceable(s)
    requires s.lock.Waking? || s.lock.Counting? || s.lock.Starting?
    requires s.lock.now <= s.clock
    requires s.lock.Starting? ||
             (var x := s.workers[s.lock.w]; x.abandoned && !x.counted && !x.pc.Gone? && s.abandoned < s.cap)
    requires s.lock.Counting? ==> Woken(s.workers[s.lock.w])
    ensures ControlOk(s)
  {
  }

  /** The worker being replaced: recorded until it is marked, and live throughout. */
  lemma ReplacedWorker(s: State)
    requires Inv(s) && (s.lock.Replacing? || s.lock.Waking? || s.lock.Counting?)
    ensures !s.Closed() && Replaceable(s) && s.lock.now <= s.clock && Spare(s) == Some(s.lock.w)
    ensures var x := s.workers[s.lock.w];
      && !x.pc.Gone? && !x.counted && WorkerOk(x, s.worker == Some(s.lock.w), true)
      && s.worker == (if s.lock.Replacing? then Some(s.lock.w) else None)
      && (!s.lock.Replacing? ==> x.abandoned && s.abandoned < s.cap) && (s.lock.Counting? ==> Woken(x))
  {
    hide ReadingsOk;
    hide ProbesOk;
    hide AnswersOk;
    hide CountOk;
    assert WorkerOk(s.workers[s.lock.w], s.worker == Some(s.lock.w), true);
  }

  lemma ReplaceMarks(s: State)
    requires Inv(s) && s.lock.Replacing? && s.abandoned < s.cap
    ensures Inv(AfterReplace(s))
  {
    hide WorkersOk;
    hide ReadingsOk;
    hide ProbesOk;
    hide AnswersOk;
    hide ControlOk;
    hide Counted;
    ReplacedWorker(s);
    var x := s.workers[s.lock.w].(abandoned := true);
    MarkKeeps(s, s.lock.w, x, None, Some(s.lock.w));
    BetweenWorkers(AfterReplace(s));
  }

  lemma ReplaceStep(s: State)
    requires Inv(s) && s.lock.Replacing?
    ensures Inv(AfterReplace(s))
  {
    hide Inv;
    ReplacedWorker(s);
    if s.abandoned >= s.cap {
      LimitHit(s);
      FailedClosed(s.(limitHits := s.limitHits + 1, reclaim := s.reclaim || s.cancellable));
    } else {
      ReplaceMarks(s);
    }
  }

  lemma WakeStep(s: State)
    requires Inv(s) && s.lock.Waking?
    ensures Inv(AfterWake(s))
  {
    hide WorkersOk;
    hide ReadingsOk;
    hide ProbesOk;
    hide AnswersOk;
    hide ControlOk;
    hide Counted;
    ReplacedWorker(s);
    MarkKeeps(s, s.lock.w, s.workers[s.lock.w].(requested := true), None, Some(s.lock.w));
    BetweenWorkers(AfterWake(s));
  }

  lemma CountStep(s: State)
    requires Inv(s) && s.lock.Counting?
    ensures Inv(AfterCount(s))
  {
    hide WorkersOk;
    hide ReadingsOk;
    hide ProbesOk;
    hide AnswersOk;
    hide ControlOk;
    ReplacedWorker(s);
    MarkKeeps(s, s.lock.w, s.workers[s.lock.w].(counted := true), None, None);
    BetweenWorkers(AfterCount(s));
  }

  lemma StartStep(s: State, started: bool)
    requires Inv(s) && s.lock.Starting?
    ensures Inv(AfterStart(s, started))
  {
    if !started {
      hide Inv;
      FailedClosed(s);
    } else {
      var n := AfterStart(s, started);
      forall w | 0 <= w < |n.workers| ensures WorkerOk(n.workers[w], n.worker == Some(w), Spare(n) == Some(w)) {
        if w < |s.workers| { assert WorkerOk(s.workers[w], s.worker == Some(w), Spare(s) == Some(w)); }
      }
      assert ProbesOk(n.probes, n.workers, n.clock + n.timeout, n.at) by {
        forall i | 0 <= i < |n.probes| ensures ProbeOk(n.probes[i], i, n.workers, n.clock + n.timeout, n.at) {
          assert ProbeOk(s.probes[i], i, s.workers, s.clock + s.timeout, s.at);
        }
      }
      assert ReadingsOk(n.workers, n.probes);
      assert Counted(n.workers) == Counted(s.workers);
    }
  }

  lemma CloseStep(s: State)
    requires Inv(s) && s.lock.Free?
    ensures Inv(AfterClose(s))
  {
    hide ProbesOk;
    hide ReadingsOk;
    hide AnswersOk;
    hide Counted;
  }

  lemma ReclaimStep(s: State)
    requires Inv(s) && s.abandoned == 0
    ensures Inv(s.(reclaim := false))
  {
    hide ProbesOk;
    hide WorkersOk;
    hide ReadingsOk;
    hide AnswersOk;
    hide Counted;
  }

  lemma ReturnStep(s: State, p: nat)
    requires Inv(s)
    ensures Inv(AfterReturn(s, p))
  {
    if p < |s.probes| && (s.probes[p].finished || s.probes[p].deadline <= s.clock) {
      assert AfterReturn(s, p) ==
        s.(answers := s.answers + [Answer(Some(p), s.probes[p].finished && s.probes[p].ready)]);
      Answered(s, Answer(Some(p), s.probes[p].finished && s.probes[p].ready));
    }
  }

  // ---- publishing and closing ---------------------------------------------------------------

  lemma ProbeAdded(s: State, p: Probe, x: Worker, w: nat)
    requires Inv(s) && w < |s.workers| && x == s.workers[w].(requested := true)
    requires p == Probe(p.deadline, false, false, s.at, w, x.dying, 0, 0, false) && p.deadline <= s.clock + s.timeout
    ensures ProbesOk(s.probes + [p], s.workers[w := x], s.clock + s.timeout, s.at + 1)
    ensures ReadingsOk(s.workers[w := x], s.probes + [p])
    ensures AnswersOk(s.answers, s.probes + [p])
  {
    var workers, probes := s.workers[w := x], s.probes + [p];
    forall i | 0 <= i < |probes| ensures ProbeOk(probes[i], i, workers, s.clock + s.timeout, s.at + 1) {
      if i < |s.probes| { assert ProbeOk(s.probes[i], i, s.workers, s.clock + s.timeout, s.at); }
    }
    forall v | 0 <= v < |workers| ensures ReadingOk(workers[v], v, probes) {
      assert ReadingOk(s.workers[v], v, s.probes);
    }
    forall a | a in s.answers ensures AnswerOk(a, probes) { assert AnswerOk(a, s.probes); }
  }

  lemma PublishFacts(s: State)
    requires Inv(s) && s.lock.Publishing?
    ensures var w := s.lock.w; var x := s.workers[w].(requested := true);
      && s.worker == Some(w) && s.lock.now <= s.clock && !s.Closed() && !Busy(x.pc)
      && WorkersOk(s.workers[w := x], s.worker, Spare(s)) && Counted(s.workers[w := x]) == Counted(s.workers)
  {
    hide ReadingsOk;
    hide ProbesOk;
    hide AnswersOk;
    var w := s.lock.w;
    assert WorkerOk(s.workers[w], s.worker == Some(w), Spare(s) == Some(w));
    WorkerPut(s.workers, s.worker, Spare(s), w, s.workers[w].(requested := true), s.worker, Spare(s));
  }

  lemma PublishedControl(s: State)
    requires Linked(s) && s.lock.Free? && !s.Closed() && s.worker.Some? && s.probe.Some?
    requires var x := s.workers[s.worker.value]; x.requested && !Busy(x.pc)
    requires var p := s.probes[s.probe.value];
             p.server == s.worker.value && p.toDying == s.workers[s.worker.value].dying
    ensures ControlOk(s)
  {
  }

  lemma PublishStep(s: State)
    requires Inv(s) && s.lock.Publishing?
    ensures Inv(Ticked(AfterPublish(s)))
  {
    hide WorkersOk;
    hide ReadingsOk;
    hide ProbesOk;
    hide AnswersOk;
    hide ControlOk;
    hide Counted;
    PublishFacts(s);
    var w := s.lock.w;
    var n := Ticked(AfterPublish(s));
    ProbeAdded(s, n.probes[|s.probes|], n.workers[w], w);
    PublishedControl(n);
  }

  lemma ClosedControl(s: State)
    requires Linked(s) && s.lock.Free? && s.Closed() && s.worker.None?
    ensures ControlOk(s)
  {
  }

  lemma ClosedFacts(s: State)
    requires Inv(s) && (s.closer.Abandoning? || s.closer.Signalling?)
    ensures s.lock.Free? && s.worker.None? && Spare(s) == Some(s.closer.w)
    ensures WorkerOk(s.workers[s.closer.w], false, true)
  {
    assert WorkerOk(s.workers[s.closer.w], false, true);
  }

  lemma CloserSteps(s: State)
    requires Inv(s)
    ensures Inv(AfterCloserStep(s))
  {
    hide WorkersOk;
    hide ReadingsOk;
    hide ProbesOk;
    hide AnswersOk;
    hide ControlOk;
    hide Counted;
    if s.closer.Abandoning? || s.closer.Signalling? {
      ClosedFacts(s);
      var w := s.closer.w;
      var n := AfterCloserStep(s);
      MarkKeeps(s, w, n.workers[w], None, Some(w));
      ClosedControl(n);
    }
    if s.closer.Reclaiming? { ReclaimingKeeps(s); }
  }

  lemma ReclaimingKeeps(s: State)
    requires Inv(s) && s.closer.Reclaiming?
    ensures Inv(AfterCloserStep(s))
  {
    hide WorkersOk;
    hide ReadingsOk;
    hide ProbesOk;
    hide AnswersOk;
    hide Counted;
  }

  // ---- worker steps -------------------------------------------------------------------------

  /** A worker other than the recorded one controls nothing. */
  lemma ControlOther(s: State, w: nat, x: Worker)
    requires Inv(s) && w < |s.workers| && s.worker != Some(w)
    requires x.pc.HasTarget() ==> x.pc.target < |s.probes|
    requires x.abandoned == s.workers[w].abandoned && x.counted == s.workers[w].counted
    requires x.pc.Gone? == s.workers[w].pc.Gone? && (Woken(s.workers[w]) ==> Woken(x))
    ensures ControlOk(Put(s, w, x))
  {
    hide WorkersOk;
    hide ReadingsOk;
    hide ProbesOk;
    hide AnswersOk;
    hide CountOk;
  }

  lemma ControlRecorded(s: State, w: nat, x: Worker)
    requires Inv(s) && w < |s.workers| && s.worker == Some(w)
    requires x.pc.HasTarget() ==> x.pc.target < |s.probes|
    requires Busy(x.pc) ==> !s.lock.Publishing? && s.probe == Some(x.pc.target)
    requires Awaited(s) && Served(s, s.probe.value) ==> Served(Put(s, w, x), s.probe.value)
    ensures ControlOk(Put(s, w, x))
  {
    hide WorkersOk;
    hide ReadingsOk;
    hide ProbesOk;
    hide AnswersOk;
    hide CountOk;
  }

  lemma PositionOk(s: State, w: nat)
    requires Inv(s) && w < |s.workers|
    ensures WorkerOk(s.workers[w], s.worker == Some(w), Spare(s) == Some(w))
    ensures ReadingOk(s.workers[w], w, s.probes)
  {
    hide ProbesOk;
    hide AnswersOk;
    hide CountOk;
    hide ControlOk;
    assert WorkerOk(s.workers[w], s.worker == Some(w), Spare(s) == Some(w));
  }

  lemma ParkingStep(s: State, w: nat)
    requires Inv(s) && w < |s.workers|
    requires var pc := s.workers[w].pc; pc.SetIdle? || pc.Wait? || pc.ClearRequested? || pc.ClearIdle?
    ensures Inv(Put(s, w, Parking(s.workers[w])))
  {
    hide Inv;
    hide ControlOk;
    PositionOk(s, w);
    var x := Parking(s.workers[w]);
    InvIsLinked(s);
    if s.worker == Some(w) { ControlRecorded(s, w, x); } else { ControlOther(s, w, x); }
    PutKeeps(s, w, x);
  }

  lemma InvIsLinked(s: State)
    requires Inv(s)
    ensures Linked(s)
  {
  }

  /** With the lock free and the probe open, an unrecorded worker is abandoned, and a recorded one reads the
      probe it was chosen for or a finished one. */
  lemma ReadFacts(s: State, w: nat)
    requires Inv(s) && w < |s.workers| && s.workers[w].pc.ReadProbe? && s.lock.Free?
    ensures s.worker == Some(w) ==> !s.Closed() && !s.workers[w].abandoned
    ensures s.worker != Some(w) && !s.Closed() ==> s.workers[w].abandoned
    ensures s.worker == Some(w) && s.probe.Some? ==>
      s.probes[s.probe.value].finished || s.probes[s.probe.value].server == w
  {
    hide ReadingsOk;
    hide ProbesOk;
    hide AnswersOk;
    hide CountOk;
    assert WorkerOk(s.workers[w], s.worker == Some(w), Spare(s) == Some(w));
  }

  lemma ReadStep(s: State, w: nat)
    requires Inv(s) && w < |s.workers| && s.workers[w].pc.ReadProbe?
    ensures Inv(AfterRead(s, w))
  {
    hide Inv;
    hide ControlOk;
    InvIsLinked(s);
    PositionOk(s, w);
    if s.lock.Free? {
      ReadFacts(s, w);
      var x := AfterRead(s, w).workers[w];
      assert AfterRead(s, w) == Put(s, w, x);
      if s.worker == Some(w) { ControlRecorded(s, w, x); } else { ControlOther(s, w, x); }
      PutKeeps(s, w, x);
    }
  }

  // ---- steps that write the probe being served ----------------------------------------------

  /** A worker moves on together with the unfinished probe it serves. */
  function PutServing(s: State, w: nat, x: Worker, i: nat, p: Probe): State
    requires Linked(s) && w < |s.workers| && i < |s.probes| && (x.pc.HasTarget() ==> x.pc.target < |s.probes|)
  {
    PutProbe(Put(s, w, x), i, p)
  }

  /** The probe keeps its identity; `finished` and the records of its check may advance. */
  predicate Advances(p: Probe, p': Probe) {
    && p'.server == p.server && p'.deadline == p.deadline && p'.createdAt == p.createdAt && p'.toDying == p.toDying
    && !p.finished
  }

  lemma OthersDoNotServe(s: State, w: nat, i: nat, p': Probe)
    requires Inv(s) && w < |s.workers| && i < |s.probes| && s.probes[i].server == w && Advances(s.probes[i], p')
    ensures forall v | 0 <= v < |s.workers| && v != w :: ReadingOk(s.workers[v], v, s.probes[i := p'])
    ensures AnswersOk(s.answers, s.probes[i := p'])
  {
    hide WorkersOk;
    hide ProbesOk;
    hide CountOk;
    hide ControlOk;
    forall v | 0 <= v < |s.workers| && v != w ensures ReadingOk(s.workers[v], v, s.probes[i := p']) {
      assert ReadingOk(s.workers[v], v, s.probes);
    }
    forall a | a in s.answers ensures AnswerOk(a, s.probes[i := p']) { assert AnswerOk(a, s.probes); }
  }

  lemma OtherProbesStand(s: State, w: nat, x: Worker, i: nat, p': Probe)
    requires Inv(s) && w < |s.workers| && i < |s.probes|
    requires s.workers[w].Reading(i) && (s.workers[w].dying ==> x.dying)
    requires ProbeOk(p', i, s.workers[w := x], s.clock + s.timeout, s.at + 1)
    ensures ProbesOk(s.probes[i := p'], s.workers[w := x], s.clock + s.timeout, s.at + 1)
  {
    hide WorkersOk;
    hide ReadingsOk;
    hide CountOk;
    hide AnswersOk;
    hide ControlOk;
    var workers, probes := s.workers[w := x], s.probes[i := p'];
    forall j | 0 <= j < |probes| ensures ProbeOk(probes[j], j, workers, s.clock + s.timeout, s.at + 1) {
      if j != i { assert ProbeOk(s.probes[j], j, s.workers, s.clock + s.timeout, s.at); }
    }
  }

  lemma SameCount(workers: seq<Worker>, w: nat, x: Worker)
    requires w < |workers| && x.counted == workers[w].counted
    ensures Counted(workers[w := x]) == Counted(workers)
  {
  }

  lemma PutServingKeeps(s: State, w: nat, x: Worker, i: nat, p': Probe)
    requires Inv(s) && w < |s.workers| && i < |s.probes| && s.probes[i].server == w && Advances(s.probes[i], p')
    requires s.workers[w].Reading(i) && (s.workers[w].dying ==> x.dying) && x.counted == s.workers[w].counted
    requires WorkerOk(x, s.worker == Some(w), Spare(s) == Some(w)) && ReadingOk(x, w, s.probes[i := p'])
    requires ProbeOk(p', i, s.workers[w := x], s.clock + s.timeout, s.at + 1)
    requires x.pc.HasTarget() ==> x.pc.target < |s.probes|
    requires ControlOk(PutServing(s, w, x, i, p'))
    ensures Inv(Ticked(PutServing(s, w, x, i, p')))
  {
    hide WorkersOk;
    hide ProbesOk;
    hide AnswersOk;
    hide ControlOk;
    hide WorkerOk;
    hide ReadingOk;
    hide ProbeOk;
    hide Counted;
    hide Advances;
    OthersDoNotServe(s, w, i, p');
    OtherProbesStand(s, w, x, i, p');
    WorkerPut(s.workers, s.worker, Spare(s), w, x, s.worker, Spare(s));
    SameCount(s.workers, w, x);
    ControlTicks(PutServing(s, w, x, i, p'));
  }

  lemma ControlTicks(s: State)
    requires Linked(s) && ControlOk(s)
    ensures ControlOk(Ticked(s))
  {
  }

  /** What a worker knows of the probe it reads, if that is unfinished. */
  lemma ServingFacts(s: State, w: nat)
    requires Inv(s) && w < |s.workers| && s.workers[w].pc.HasTarget()
    ensures var x := s.workers[w]; var i := x.pc.target;
      && i < |s.probes| && ProbeOk(s.probes[i], i, s.workers, s.clock + s.timeout, s.at)
      && WorkerOk(x, s.worker == Some(w), Spare(s) == Some(w)) && ReadingOk(x, w, s.probes)
      && (!x.pc.Decide? || !s.probes[i].finished ==> s.probes[i].server == w && !s.probes[i].finished)
      && (s.worker == Some(w) && Busy(x.pc) ==> s.probe == Some(i) && !s.lock.Publishing?)
  {
    hide CountOk;
    hide AnswersOk;
    hide WakeOk;
    PositionOk(s, w);
  }

  /** The probe written is the served one, so the current probe changes only if that is it. */
  lemma ServingControl(s: State, w: nat, x: Worker, i: nat, p': Probe)
    requires Inv(s) && w < |s.workers| && i < |s.probes| && s.probes[i].server == w && Advances(s.probes[i], p')
    requires x.pc.HasTarget() ==> x.pc.target < |s.probes|
    requires x.abandoned == s.workers[w].abandoned && x.counted == s.workers[w].counted && !x.pc.Gone?
    requires !s.workers[w].pc.Gone? && (Woken(s.workers[w]) ==> Woken(x))
    requires s.worker == Some(w) && Busy(x.pc) ==> !s.lock.Publishing? && s.probe == Some(x.pc.target)
    requires s.worker == Some(w) && Awaited(s) && Served(s, s.probe.value) && !(s.probe == Some(i) && p'.finished)
             ==> Served(PutServing(s, w, x, i, p'), s.probe.value)
    ensures ControlOk(PutServing(s, w, x, i, p'))
  {
    hide WorkersOk;
    hide ReadingsOk;
    hide ProbesOk;
    hide AnswersOk;
    hide CountOk;
  }

  lemma DecideStep(s: State, w: nat)
    requires Inv(s) && w < |s.workers| && s.workers[w].pc.Decide?
    ensures Inv(Ticked(AfterDecide(s, w)))
  {
    hide Inv;
    hide ControlOk;
    InvIsLinked(s);
    ServingFacts(s, w);
    var x, i := s.workers[w], s.workers[w].pc.target;
    if s.probes[i].finished {
      var x' := x.(pc := SetIdle);
      if s.worker == Some(w) { ControlRecorded(s, w, x'); } else { ControlOther(s, w, x'); }
      PutKeeps(s, w, x');
      Later(Put(s, w, x'));
    } else {
      var x' := x.(pc := Checking(i));
      var p' := s.probes[i].(checks := s.probes[i].checks + 1, checkedAt := s.at);
      ServingControl(s, w, x', i, p');
      PutServingKeeps(s, w, x', i, p');
    }
  }

  lemma CheckStep(s: State, w: nat, passed: bool, escaped: bool)
    requires Inv(s) && w < |s.workers| && s.workers[w].pc.Checking?
    ensures Inv(Ticked(AfterCheck(s, w, passed, escaped)))
  {
    hide Inv;
    hide ControlOk;
    InvIsLinked(s);
    ServingFacts(s, w);
    var x, i := s.workers[w], s.workers[w].pc.target;
    var x' := x.(dying := escaped, pc := FinishIdle(i, passed));
    var p' := s.probes[i].(checkPassed := passed);
    ServingControl(s, w, x', i, p');
    PutServingKeeps(s, w, x', i, p');
  }

  lemma FinishingIsOk(s: State, w: nat)
    requires Inv(s) && w < |s.workers|
    requires s.workers[w].pc.FinishIdle? || s.workers[w].pc.FinishReady? || s.workers[w].pc.FinishFinished?
    ensures var x := s.workers[w]; var i := x.pc.target; var x' := Finishing(x);
      && i < |s.probes| && s.probes[i].server == w && !s.probes[i].finished && x.Reading(i)
      && WorkerOk(x', s.worker == Some(w), Spare(s) == Some(w))
      && ReadingOk(x', w, s.probes[i := Finished(x, s.probes[i])])
      && ProbeOk(Finished(x, s.probes[i]), i, s.workers[w := x'], s.clock + s.timeout, s.at + 1)
  {
    hide Inv;
    ServingFacts(s, w);
  }

  lemma FinishStep(s: State, w: nat)
    requires Inv(s) && w < |s.workers|
    requires s.workers[w].pc.FinishIdle? || s.workers[w].pc.FinishReady? || s.workers[w].pc.FinishFinished?
    ensures Inv(Ticked(AfterFinish(s, w)))
  {
    hide Inv;
    hide ControlOk;
    hide WorkerOk;
    hide ReadingOk;
    hide ProbeOk;
    InvIsLinked(s);
    FinishingIsOk(s, w);
    var i := s.workers[w].pc.target;
    var x', p' := Finishing(s.workers[w]), Finished(s.workers[w], s.probes[i]);
    ServingControl(s, w, x', i, p');
    PutServingKeeps(s, w, x', i, p');
  }

  // ---- release ------------------------------------------------------------------------------

  lemma ReleaseControl(s: State, w: nat)
    requires Inv(s) && w < |s.workers| && s.workers[w].pc.Release? && s.lock.Free?
    ensures ControlOk(AfterRelease(s, w))
  {
    hide ReadingsOk;
    hide ProbesOk;
    hide AnswersOk;
    hide CountOk;
    assert WorkerOk(s.workers[w], s.worker == Some(w), Spare(s) == Some(w));
  }

  lemma ReleaseParts(s: State, w: nat)
    requires Inv(s) && w < |s.workers| && s.workers[w].pc.Release? && s.lock.Free?
    ensures var n := AfterRelease(s, w);
      && WorkersOk(n.workers, n.worker, Spare(n)) && ReadingsOk(n.workers, n.probes)
      && ProbesOk(n.probes, n.workers, n.clock + n.timeout, n.at) && CountOk(n)
  {
    hide ControlOk;
    hide AnswersOk;
    PositionOk(s, w);
    var n := AfterRelease(s, w);
    var x := n.workers[w];
    ReadingPut(s.workers, s.probes, w, x);
    ProbesPut(s.probes, s.workers, s.clock + s.timeout, s.at, w, x);
    WorkerPut(s.workers, s.worker, Spare(s), w, x, n.worker, Spare(n));
    hide WorkersOk;
    hide ReadingsOk;
    hide ProbesOk;
    assert Counted(n.workers) == Counted(s.workers) - {w};
  }

  lemma ReleaseStep(s: State, w: nat)
    requires Inv(s) && w < |s.workers| && s.workers[w].pc.Release? && s.lock.Free?
    ensures Inv(AfterRelease(s, w))
  {
    hide WorkersOk;
    hide ReadingsOk;
    hide ProbesOk;
    hide AnswersOk;
    hide CountOk;
    hide ControlOk;
    ReleaseControl(s, w);
    ReleaseParts(s, w);
  }

  // ---- every step ---------------------------------------------------------------------------

  lemma WorkerStepKeeps(s: State, w: nat)
    requires Inv(s) && w < |s.workers|
    ensures Inv(Ticked(AfterWorkerStep(s, w)))
  {
    hide Inv;
    hide AfterRead;
    hide AfterDecide;
    hide AfterFinish;
    hide AfterRelease;
    InvIsLinked(s);
    Later(s);
    var pc := s.workers[w].pc;
    if pc.ReadProbe? {
      ReadStep(s, w);
      Later(AfterRead(s, w));
    } else if pc.Decide? {
      DecideStep(s, w);
    } else if pc.FinishIdle? || pc.FinishReady? || pc.FinishFinished? {
      FinishStep(s, w);
    } else if pc.Release? {
      if s.lock.Free? {
        ReleaseStep(s, w);
        Later(AfterRelease(s, w));
      }
    } else if pc.SetIdle? || pc.Wait? || pc.ClearRequested? || pc.ClearIdle? {
      ParkingStep(s, w);
      Later(Put(s, w, Parking(s.workers[w])));
    } else {
      assert Put(s, w, Parking(s.workers[w])) == s;
    }
  }

  lemma CallStepKeeps(s: State, step: Step)
    requires Inv(s)
    requires step.Enter? || step.ReadIdle? || step.Replace? || step.Wake? || step.Count? || step.Start? || step.Publish?
    ensures Inv(Next(s, step))
  {
    hide Inv;
    hide AfterEnter;
    hide AfterReadIdle;
    hide AfterReplace;
    hide AfterWake;
    hide AfterCount;
    hide AfterStart;
    hide AfterPublish;
    InvIsLinked(s);
    Later(s);
    match step
    case Enter => if s.lock.Free? { EnterStep(s); Later(AfterEnter(s)); }
    case ReadIdle => if s.lock.ReadingIdle? { ReadIdleStep(s); Later(AfterReadIdle(s)); }
    case Replace => if s.lock.Replacing? { ReplaceStep(s); Later(AfterReplace(s)); }
    case Wake => if s.lock.Waking? { WakeStep(s); Later(AfterWake(s)); }
    case Count => if s.lock.Counting? { CountStep(s); Later(AfterCount(s)); }
    case Start(started) => if s.lock.Starting? { StartStep(s, started); Later(AfterStart(s, started)); }
    case Publish => if s.lock.Publishing? { PublishStep(s); }
  }

  lemma StepKeeps(s: State, step: Step)
    requires Inv(s)
    ensures Inv(Next(s, step))
  {
    hide Inv;
    hide AfterClose;
    hide AfterCloserStep;
    hide AfterWorkerStep;
    hide AfterReturn;
    InvIsLinked(s);
    Later(s);
    match step
    case Tick(to) => if s.clock <= to { TickStep(s, to); Later(s.(clock := to)); }
    case Close => if s.lock.Free? { CloseStep(s); Later(AfterClose(s)); }
    case CloserStep => CloserSteps(s); Later(AfterCloserStep(s));
    case ReclaimerClears => if s.abandoned == 0 { ReclaimStep(s); Later(s.(reclaim := false)); }
    case WorkerStep(w) => if w < |s.workers| { WorkerStepKeeps(s, w); }
    case CheckReturns(w, passed) => if w < |s.workers| && s.workers[w].pc.Checking? { CheckStep(s, w, passed, false); }
    case CheckEscapes(w) => if w < |s.workers| && s.workers[w].pc.Checking? { CheckStep(s, w, false, true); }
    case Return(p) => ReturnStep(s, p); Later(AfterReturn(s, p));
    case _ => CallStepKeeps(s, step);
  }

  lemma {:induction false} RunKeeps(s: State, steps: seq<Step>)
    requires Inv(s)
    ensures Linked(s) && Inv(Run(s, steps))
    decreases |steps|
  {
    hide Inv;
    hide Next;
    InvIsLinked(s);
    if steps != [] {
      StepKeeps(s, steps[0]);
      RunKeeps(Next(s, steps[0]), steps[1..]);
    }
  }
}
