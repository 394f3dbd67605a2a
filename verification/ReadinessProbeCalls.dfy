/** What the parts of the readiness probe do when nobody comes in between: a whole call up to its probe, a check up to
    the caller's answer, and an abandoned worker up to the return of its slot. */
module ReadinessProbeCalls {
  import opened Common
  import opened ReadinessProbe
  import opened ReadinessProbeSafety
  import opened ReadinessProbeProgress
  import Theorems = ReadinessProbeTheorems

  lemma OneStep(s: State, step: Step)
    requires Linked(s)
    ensures Run(s, [step]) == Next(s, step)
  {
    hide Linked;
    hide Next;
    assert Run(Next(s, step), []) == Next(s, step);
  }

  lemma {:induction false} InParts(s: State, a: seq<Step>, b: seq<Step>)
    requires Linked(s)
    ensures Run(s, a + b) == Run(Run(s, a), b)
    decreases |a|
  {
    hide Linked;
    hide Next;
    if a == [] {
      assert a + b == b;
    } else {
      assert (a + b)[0] == a[0] && (a + b)[1..] == a[1..] + b;
      InParts(Next(s, a[0]), a[1..], b);
    }
  }

  lemma FirstOf(s: State, step: Step, rest: seq<Step>)
    requires Linked(s)
    ensures Run(s, [step] + rest) == Run(Next(s, step), rest)
  {
    hide Linked;
    hide Next;
    assert ([step] + rest)[1..] == rest;
  }

  // ---- answers ------------------------------------------------------------------------------

  /** In every run a finished probe was checked once, and is ready exactly if that check passed. */
  lemma FinishedIsReadyExactlyIfItsCheckPassed(cap: int, timeout: int, cancellable: bool, clock: int, steps: seq<Step>,
                                               i: nat)
    requires i < |Run(Initial(cap, timeout, cancellable, clock), steps).probes|
    requires Run(Initial(cap, timeout, cancellable, clock), steps).probes[i].finished
    ensures var p := Run(Initial(cap, timeout, cancellable, clock), steps).probes[i];
      p.checks == 1 && (p.ready <==> p.checkPassed)
  {
    var s := Run(Initial(cap, timeout, cancellable, clock), steps);
    Theorems.Reachable(cap, timeout, cancellable, clock, steps);
    hide Run;
    hide ControlOk;
    hide CountOk;
    hide AnswersOk;
    assert ProbeOk(s.probes[i], i, s.workers, s.clock + s.timeout, s.at);
  }

  /** In every run a waiting caller goes on waiting until its probe is finished or its deadline has come; then its
      answer is the outcome of the probe's check, or False without one, and nothing else changes. It is answered when
      the clock reaches the deadline at the latest. */
  lemma CallersAreAnsweredExactly(cap: int, timeout: int, cancellable: bool, clock: int, steps: seq<Step>, i: nat)
    requires i < |Run(Initial(cap, timeout, cancellable, clock), steps).probes|
    ensures var s := Run(Initial(cap, timeout, cancellable, clock), steps); var p := s.probes[i];
      var answers := if p.finished then [Answer(Some(i), p.checkPassed)]
                     else if p.deadline <= s.clock then [Answer(Some(i), false)]
                     else [];
      Next(s, Return(i)) == s.(at := s.at + 1, answers := s.answers + answers)
    ensures var s := Run(Initial(cap, timeout, cancellable, clock), steps); var p := s.probes[i];
      forall to | s.clock <= to && p.deadline <= to ::
        Next(Next(s, Tick(to)), Return(i)).answers == s.answers + [Answer(Some(i), p.finished && p.checkPassed)]
  {
    hide Run;
    var s := Run(Initial(cap, timeout, cancellable, clock), steps);
    if s.probes[i].finished { FinishedIsReadyExactlyIfItsCheckPassed(cap, timeout, cancellable, clock, steps, i); }
  }

  /** The check of worker w returns, w finishes its probe, and the caller returns. */
  function AnsweringSteps(w: nat, i: nat, check: Step): seq<Step> { [check] + (Own(w, 3) + [Return(i)]) }

  lemma CheckIsRecorded(s: State, w: nat, check: Step, passed: bool)
    requires Inv(s) && w < |s.workers| && s.workers[w].pc.Checking?
    requires check == CheckReturns(w, passed) || (check == CheckEscapes(w) && !passed)
    ensures Linked(s)
    ensures var i := s.workers[w].pc.target; var n := Next(s, check);
      && i < |n.probes| && w < |n.workers| && n.workers[w].pc == FinishIdle(i, passed) && n.answers == s.answers
      && n.lock == s.lock && n.workers[w].(pc := s.workers[w].pc, dying := s.workers[w].dying) == s.workers[w]
      && n.workers[w].dying == check.CheckEscapes? && n.abandoned == s.abandoned && n.closer == s.closer
  {
    hide Inv;
    InvIsLinked(s);
  }

  lemma FinishingSteps(s: State, w: nat, passed: bool)
    requires Linked(s) && w < |s.workers| && s.workers[w].pc.FinishIdle? && s.workers[w].pc.passed == passed
    ensures var i := s.workers[w].pc.target; var n := Run(s, Own(w, 3));
      && i < |n.probes| && n.probes[i].finished && n.probes[i].ready == passed && n.answers == s.answers
      && n.lock == s.lock && n.abandoned == s.abandoned && n.closer == s.closer && w < |n.workers|
      && n.workers[w] == s.workers[w].(idle := true, pc := if s.workers[w].dying then Release else SetIdle)
  {
    hide Run;
    var a := Next(s, WorkerStep(w));
    FinishesIdle(s, w);
    var b := Next(a, WorkerStep(w));
    FinishesReady(a, w);
    FinishesFinished(b, w);
    ThreeOwn(s, w);
  }

  lemma ThreeOwn(s: State, w: nat)
    requires Linked(s)
    ensures Run(s, Own(w, 3)) == Next(Next(Next(s, WorkerStep(w)), WorkerStep(w)), WorkerStep(w))
  {
    hide Linked;
    hide Next;
    var step := WorkerStep(w);
    assert Own(w, 0) == [];
    assert Own(w, 1) == [step] && Own(w, 2)[0] == step && Own(w, 2)[1..] == Own(w, 1);
    assert Own(w, 3)[0] == step && Own(w, 3)[1..] == Own(w, 2);
    OneStep(Next(Next(s, step), step), step);
  }

  /** What a step of the worker that only finishes leaves alone. */
  predicate Finishes(s: State, n: State, w: nat, i: nat) {
    && |n.probes| == |s.probes| && |n.workers| == |s.workers| && w < |s.workers| && i < |s.probes|
    && n.answers == s.answers && n.lock == s.lock && n.abandoned == s.abandoned && n.closer == s.closer
  }

  lemma FinishesIdle(s: State, w: nat)
    requires Linked(s) && w < |s.workers| && s.workers[w].pc.FinishIdle?
    ensures var i := s.workers[w].pc.target; var n := Next(s, WorkerStep(w));
      && Finishes(s, n, w, i)
      && n.workers[w] == s.workers[w].(idle := true, pc := FinishReady(i, s.workers[w].pc.passed))
  {
  }

  lemma FinishesReady(s: State, w: nat)
    requires Linked(s) && w < |s.workers| && s.workers[w].pc.FinishReady?
    ensures var i := s.workers[w].pc.target; var n := Next(s, WorkerStep(w));
      && Finishes(s, n, w, i) && n.workers[w] == s.workers[w].(pc := FinishFinished(i))
      && n.probes[i].ready == s.workers[w].pc.passed
  {
  }

  lemma FinishesFinished(s: State, w: nat)
    requires Linked(s) && w < |s.workers| && s.workers[w].pc.FinishFinished?
    ensures var i := s.workers[w].pc.target; var n := Next(s, WorkerStep(w));
      && Finishes(s, n, w, i) && n.probes[i] == s.probes[i].(finished := true)
      && n.workers[w] == s.workers[w].(pc := if s.workers[w].dying then Release else SetIdle)
  {
  }

  /** From every reachable state, whatever the lock: a check that returns is answered with what it returned, and one
      that dies with False. */
  lemma ChecksAreAnswered(cap: int, timeout: int, cancellable: bool, clock: int, steps: seq<Step>, w: nat, passed: bool)
    requires var s := Run(Initial(cap, timeout, cancellable, clock), steps);
      w < |s.workers| && s.workers[w].pc.Checking?
    ensures var s := Run(Initial(cap, timeout, cancellable, clock), steps); var i := s.workers[w].pc.target;
      && Run(s, AnsweringSteps(w, i, CheckReturns(w, passed))).answers == s.answers + [Answer(Some(i), passed)]
      && Run(s, AnsweringSteps(w, i, CheckEscapes(w))).answers == s.answers + [Answer(Some(i), false)]
  {
    hide Run;
    var s := Run(Initial(cap, timeout, cancellable, clock), steps);
    Theorems.Reachable(cap, timeout, cancellable, clock, steps);
    AnsweredWith(s, w, CheckReturns(w, passed), passed);
    AnsweredWith(s, w, CheckEscapes(w), false);
  }

  lemma AnsweredWith(s: State, w: nat, check: Step, passed: bool)
    requires Inv(s) && w < |s.workers| && s.workers[w].pc.Checking?
    requires check == CheckReturns(w, passed) || (check == CheckEscapes(w) && !passed)
    ensures Linked(s)
    ensures var i := s.workers[w].pc.target;
      Run(s, AnsweringSteps(w, i, check)).answers == s.answers + [Answer(Some(i), passed)]
  {
    hide Inv;
    hide Run;
    hide Own;
    hide AfterCheck;
    CheckIsRecorded(s, w, check, passed);
    var i := s.workers[w].pc.target;
    var n := Next(s, check);
    FinishingSteps(n, w, passed);
    InParts(s, [check], Own(w, 3) + [Return(i)]);
    OneStep(s, check);
    InParts(n, Own(w, 3), [Return(i)]);
    OneStep(Run(n, Own(w, 3)), Return(i));
  }

  // ---- the slot of an abandoned worker ------------------------------------------------------

  /** Where an abandoned worker stands once its probe is finished, and how far it is from leaving. */
  predicate Leaving(s: State, w: nat, k: nat) {
    && w < |s.workers| && s.lock.Free?
    && var x := s.workers[w];
    && x.abandoned && x.counted
    && match k
       case 6 => x.pc.SetIdle? && x.requested
       case 5 => x.pc.Wait? && x.requested
       case 4 => x.pc.ClearRequested?
       case 3 => x.pc.ClearIdle?
       case 2 => x.pc.ReadProbe?
       case 1 => x.pc.Release?
       case _ => false
  }

  predicate HasLeft(s: State, n: State, w: nat) {
    && w < |n.workers| && n.workers[w].pc.Gone? && !n.workers[w].counted && n.abandoned == s.abandoned - 1
    && n.lock.Free? && n.answers == s.answers
  }

  lemma LeavingStep(s: State, w: nat, k: nat)
    requires Linked(s) && Leaving(s, w, k)
    ensures var n := Next(s, WorkerStep(w));
      && (k > 1 ==> Leaving(n, w, k - 1) && n.abandoned == s.abandoned && n.answers == s.answers)
      && (k == 1 ==> HasLeft(s, n, w))
  {
  }

  lemma GoneStays(s: State, n: State, w: nat)
    requires Linked(n) && HasLeft(s, n, w)
    ensures HasLeft(s, Next(n, WorkerStep(w)), w)
  {
  }

  lemma {:induction false} Leaves(s: State, w: nat, k: nat, more: nat)
    requires Linked(s) && Leaving(s, w, k)
    ensures HasLeft(s, Run(s, Own(w, k + more)), w)
    decreases k
  {
    hide Linked;
    hide Next;
    var n := Next(s, WorkerStep(w));
    LeavingStep(s, w, k);
    assert 1 <= k;
    assert Own(w, k + more)[0] == WorkerStep(w) && Own(w, k + more)[1..] == Own(w, k + more - 1);
    if k > 1 {
      Leaves(n, w, k - 1, more);
    } else {
      StaysGone(s, n, w, more);
    }
  }

  lemma {:induction false} StaysGone(s: State, n: State, w: nat, more: nat)
    requires Linked(n) && HasLeft(s, n, w)
    ensures HasLeft(s, Run(n, Own(w, more)), w)
    decreases more
  {
    hide Linked;
    hide Next;
    hide HasLeft;
    if more > 0 {
      GoneStays(s, n, w);
      assert Own(w, more)[0] == WorkerStep(w) && Own(w, more)[1..] == Own(w, more - 1);
      StaysGone(s, Next(n, WorkerStep(w)), w, more - 1);
    }
  }

  /** From every reachable state with the lock free: when the check of an abandoned worker comes back at last, in
      whatever way, nine operations of that worker later it is gone and its slot is free again. */
  lemma SlotsComeBack(cap: int, timeout: int, cancellable: bool, clock: int, steps: seq<Step>, w: nat, check: Step)
    requires var s := Run(Initial(cap, timeout, cancellable, clock), steps);
      w < |s.workers| && s.workers[w].counted && s.workers[w].pc.Checking? && s.lock.Free?
    requires check == CheckEscapes(w) || check == CheckReturns(w, true) || check == CheckReturns(w, false)
    ensures var s := Run(Initial(cap, timeout, cancellable, clock), steps);
      HasLeft(s, Run(s, [check] + (Own(w, 3) + Own(w, 6))), w)
  {
    hide Run;
    hide Own;
    hide Inv;
    hide AfterCheck;
    hide Leaving;
    hide HasLeft;
    var s := Run(Initial(cap, timeout, cancellable, clock), steps);
    Theorems.Reachable(cap, timeout, cancellable, clock, steps);
    CountedFacts(s, w);
    var passed := check.CheckReturns? && check.passed;
    CheckIsRecorded(s, w, check, passed);
    var n := Next(s, check);
    FinishingSteps(n, w, passed);
    var m := Run(n, Own(w, 3));
    InParts(s, [check], Own(w, 3) + Own(w, 6));
    OneStep(s, check);
    InParts(n, Own(w, 3), Own(w, 6));
    if n.workers[w].dying {
      assert Leaving(m, w, 1) by { IsLeaving(m, w, 1); }
      Leaves(m, w, 1, 5);
    } else {
      assert Leaving(m, w, 6) by { IsLeaving(m, w, 6); }
      Leaves(m, w, 6, 0);
    }
    SameStart(m, s, Run(m, Own(w, 6)), w);
  }

  lemma IsLeaving(s: State, w: nat, k: nat)
    requires w < |s.workers| && s.lock.Free? && s.workers[w].abandoned && s.workers[w].counted
    requires (k == 6 && s.workers[w].pc.SetIdle? && s.workers[w].requested) || (k == 1 && s.workers[w].pc.Release?)
    ensures Leaving(s, w, k)
  {
  }

  lemma SameStart(m: State, s: State, n: State, w: nat)
    requires HasLeft(m, n, w) && m.abandoned == s.abandoned && m.answers == s.answers
    ensures HasLeft(s, n, w)
  {
  }

  lemma CountedFacts(s: State, w: nat)
    requires Inv(s) && w < |s.workers| && s.workers[w].counted && s.workers[w].pc.Checking?
    ensures s.workers[w].abandoned && s.workers[w].requested
  {
    hide ControlOk;
    hide ProbesOk;
    hide AnswersOk;
    hide CountOk;
    assert WorkerOk(s.workers[w], s.worker == Some(w), Spare(s) == Some(w));
  }

  // ---- a whole call up to its probe ---------------------------------------------------------

  /** The operations of one call inside the lock; those of branches it does not take do nothing. */
  function CallSteps(started: bool): seq<Step> { [Enter, ReadIdle, Replace, Wake, Count, Start(started), Publish] }

  /** Nobody may replace the current request yet. */
  predicate Joinable(s: State)
    requires Linked(s)
  {
    s.probe.Some? && !s.probes[s.probe.value].finished && s.clock < s.probes[s.probe.value].deadline
  }

  /** The call has left the lock with a new request, due by now plus the timeout, handed to worker w and signalled. */
  predicate HandedTo(s: State, n: State, w: nat, dying: bool) {
    && n.lock.Free? && n.worker == Some(w) && w < |n.workers| && n.workers[w].requested
    && n.probe == Some(|s.probes|) && |n.probes| == |s.probes| + 1 && n.probes[..|s.probes|] == s.probes
    && var p := n.probes[|s.probes|];
    && p.deadline == s.clock + s.timeout && p.server == w && p.toDying == dying && !p.finished && p.checks == 0
    && n.answers == s.answers && n.closer == s.closer && n.limitHits == s.limitHits
  }

  /** The call has answered False and left the requests as they were. */
  predicate FailedClosed(s: State, n: State) {
    && n.lock.Free? && n.answers == s.answers + [Answer(None, false)]
    && n.probe == s.probe && n.probes == s.probes && n.closer == s.closer
  }

  /** Worker w has been given up: marked, signalled and counted. */
  predicate GivenUp(s: State, n: State, w: nat) {
    && w < |s.workers| <= |n.workers| && n.abandoned == s.abandoned + 1 && (s.cancellable ==> n.reclaim)
    && n.workers[w] == s.workers[w].(abandoned := true, requested := true, counted := true)
  }

  /** The state in which a call leaves the lock, step by step. */
  function Entered(s: State): State
    requires Linked(s)
    ensures Linked(Entered(s))
  {
    Next(Next(s, Enter), ReadIdle)
  }

  function GaveUp(s: State): State
    requires Linked(s)
    ensures Linked(GaveUp(s))
  {
    Next(Next(Next(s, Replace), Wake), Count)
  }

  function Installed(s: State, started: bool): State
    requires Linked(s)
    ensures Linked(Installed(s, started))
  {
    Next(Next(s, Start(started)), Publish)
  }

  lemma EnteredIs(s: State)
    requires Linked(s)
    ensures Run(s, [Enter, ReadIdle]) == Entered(s)
  {
    hide Linked;
    hide Next;
    hide Run;
    assert [Enter, ReadIdle] == [Enter] + [ReadIdle];
    FirstOf(s, Enter, [ReadIdle]);
    OneStep(Next(s, Enter), ReadIdle);
  }

  lemma GaveUpIs(s: State)
    requires Linked(s)
    ensures Run(s, [Replace, Wake, Count]) == GaveUp(s)
  {
    hide Linked;
    hide Next;
    hide Run;
    assert [Replace, Wake, Count] == [Replace] + ([Wake] + [Count]);
    FirstOf(s, Replace, [Wake] + [Count]);
    FirstOf(Next(s, Replace), Wake, [Count]);
    OneStep(Next(Next(s, Replace), Wake), Count);
  }

  lemma InstalledIs(s: State, started: bool)
    requires Linked(s)
    ensures Run(s, [Start(started), Publish]) == Installed(s, started)
  {
    hide Linked;
    hide Next;
    hide Run;
    assert [Start(started), Publish] == [Start(started)] + [Publish];
    FirstOf(s, Start(started), [Publish]);
    OneStep(Next(s, Start(started)), Publish);
  }

  lemma CallInParts(s: State, started: bool)
    requires Linked(s)
    ensures Run(s, CallSteps(started)) == Installed(GaveUp(Entered(s)), started)
  {
    hide Linked;
    hide Next;
    hide Run;
    hide Entered;
    hide GaveUp;
    hide Installed;
    var giveUp, install := [Replace, Wake, Count], [Start(started), Publish];
    assert CallSteps(started) == [Enter, ReadIdle] + (giveUp + install);
    InParts(s, [Enter, ReadIdle], giveUp + install);
    EnteredIs(s);
    InParts(Entered(s), giveUp, install);
    GaveUpIs(Entered(s));
    InstalledIs(GaveUp(Entered(s)), started);
  }

  lemma EntersOnly(s: State)
    requires Linked(s) && s.lock.Free? && (s.Closed() || Joinable(s))
    ensures var n := Entered(s); n == s.(at := s.at + 2, answers := n.answers)
    ensures Entered(s).answers == s.answers + if s.Closed() then [Answer(None, false)] else []
  {
    assert s.answers + [] == s.answers;
  }

  lemma EnteringSteps(s: State)
    requires Linked(s) && s.lock.Free?
    ensures var n := Entered(s);
      n == s.(at := s.at + 2, lock := n.lock, answers := n.answers)
    ensures var n := Entered(s);
      && (s.Closed() ==> n.lock.Free? && n.answers == s.answers + [Answer(None, false)])
      && (!s.Closed() ==> n.answers == s.answers)
      && (!s.Closed() && Joinable(s) ==> n.lock.Free?)
      && (!s.Closed() && !Joinable(s) ==>
            n.lock == if s.worker.None? then Starting(s.clock)
                      else if s.workers[s.worker.value].idle then Publishing(s.clock, s.worker.value)
                      else Replacing(s.clock, s.worker.value))
  {
    if s.Closed() || Joinable(s) {
      EntersOnly(s);
      hide Entered;
    }
  }

  /** Outside a replacement its operations do nothing but pass the time. */
  lemma NothingToGiveUp(s: State)
    requires Linked(s) && !s.lock.Replacing? && !s.lock.Waking? && !s.lock.Counting?
    ensures GaveUp(s) == s.(at := s.at + 3)
  {
  }

  lemma GivingUpSteps(s: State)
    requires Linked(s) && s.lock.Replacing? && !s.workers[s.lock.w].pc.Gone?
    ensures var n := GaveUp(s); var w := s.lock.w;
      if s.abandoned >= s.cap then
        n == s.(at := s.at + 3, lock := Free, answers := s.answers + [Answer(None, false)],
                limitHits := s.limitHits + 1, reclaim := s.reclaim || s.cancellable)
      else
        n == s.(at := s.at + 3, lock := Starting(s.lock.now), worker := None, abandoned := s.abandoned + 1,
                reclaim := s.reclaim || s.cancellable,
                workers := s.workers[w := s.workers[w].(abandoned := true, requested := true, counted := true)])
  {
    if s.abandoned < s.cap {
      var a := Next(s, Replace);
      var b := Next(a, Wake);
      var w := s.lock.w;
      assert b.workers[w := b.workers[w].(counted := true)] ==
        s.workers[w := s.workers[w].(abandoned := true, requested := true, counted := true)];
    }
  }

  lemma InstallingSteps(s: State, started: bool)
    requires Linked(s) && (s.lock.Free? || s.lock.Starting? || s.lock.Publishing?)
    ensures var n := Installed(s, started);
      && (s.lock.Free? ==> n == s.(at := s.at + 2))
      && (s.lock.Starting? && !started ==>
            n == s.(at := s.at + 2, lock := Free, answers := s.answers + [Answer(None, false)]))
      && (s.lock.Starting? && started ==>
            && HandedTo(s.(clock := s.lock.now), n, |s.workers|, false) && n.abandoned == s.abandoned
            && n.workers == s.workers + [Fresh().(requested := true)] && (s.reclaim ==> n.reclaim))
      && (s.lock.Publishing? ==>
            && (s.worker == Some(s.lock.w) ==>
                  HandedTo(s.(clock := s.lock.now), n, s.lock.w, s.workers[s.lock.w].dying))
            && n.workers == s.workers[s.lock.w := s.workers[s.lock.w].(requested := true)]
            && n.abandoned == s.abandoned && (s.reclaim ==> n.reclaim))
  {
  }

  /** What a call with nobody in between does, from every reachable state with the lock free: a closed probe answers
      False; a request still awaited is joined, with nothing changed; otherwise a new request goes to the recorded
      worker if that is idle, and to a new worker if there is none or the old one is blocked and can be given up; at the
      cap, or without a new thread, the answer is False. */
  lemma WholeCall(cap: int, timeout: int, cancellable: bool, clock: int, steps: seq<Step>, started: bool)
    requires Run(Initial(cap, timeout, cancellable, clock), steps).lock.Free?
    ensures var s := Run(Initial(cap, timeout, cancellable, clock), steps); var n := Run(s, CallSteps(started));
      if s.Closed() then FailedClosed(s, n) && n.workers == s.workers && n.abandoned == s.abandoned
      else if Joinable(s) then n == s.(at := n.at)
      else if s.worker.None? then
        if started then HandedTo(s, n, |s.workers|, false) && n.abandoned == s.abandoned
        else FailedClosed(s, n) && n.worker.None? && n.abandoned == s.abandoned
      else
        var w := s.worker.value;
        if s.workers[w].idle then HandedTo(s, n, w, s.workers[w].dying) && n.abandoned == s.abandoned
        else if s.abandoned >= s.cap then
          && FailedClosed(s, n) && n.worker == s.worker && n.workers == s.workers && n.abandoned == s.abandoned
          && n.limitHits == s.limitHits + 1 && (s.cancellable ==> n.reclaim)
        else
          && GivenUp(s, n, w)
          && if started then HandedTo(s, n, |s.workers|, false) else FailedClosed(s, n) && n.worker.None?
  {
    hide Inv;
    hide Run;
    hide Entered;
    hide GaveUp;
    hide Installed;
    var s := Run(Initial(cap, timeout, cancellable, clock), steps);
    Theorems.Reachable(cap, timeout, cancellable, clock, steps);
    Theorems.RecordedWorkerIsAlive(cap, timeout, cancellable, clock, steps);
    CallInParts(s, started);
    EnteringSteps(s);
    var a := Entered(s);
    if a.lock.Replacing? { GivingUpSteps(a); } else { NothingToGiveUp(a); }
    InstallingSteps(GaveUp(a), started);
  }

  // ---- closing ------------------------------------------------------------------------------

  lemma ClosingSteps(s: State)
    requires Linked(s) && s.lock.Free? && !s.Closed()
    ensures var n := Next(Next(Next(Next(s, Close), CloserStep), CloserStep), CloserStep);
      && n.closer == Done(s.worker) && n.worker.None? && n.reclaim && n.lock.Free?
      && n.probes == s.probes && n.answers == s.answers && n.abandoned == s.abandoned
      && n.workers == if s.worker.None? then s.workers
                      else s.workers[s.worker.value := s.workers[s.worker.value].(abandoned := true, requested := true)]
  {
    var a := Next(s, Close);
    var b := Next(a, CloserStep);
    if s.worker.Some? {
      var w := s.worker.value;
      var c := Next(b, CloserStep);
      assert c.workers[w := c.workers[w].(requested := true)] ==
        s.workers[w := s.workers[w].(abandoned := true, requested := true)];
    }
  }

  /** close() with nobody in between, from every state with the lock free: the probe is closed, the reclaimer woken, and
      the recorded worker marked and signalled; nothing else changes. Closing again changes nothing at all. */
  lemma WholeClose(s: State)
    requires Linked(s) && s.lock.Free?
    ensures var n := Run(s, [Close, CloserStep, CloserStep, CloserStep]);
      if s.Closed() then s.closer.Done? ==> n == s.(at := n.at)
      else
        && n.closer == Done(s.worker) && n.worker.None? && n.reclaim && n.lock.Free?
        && n.probes == s.probes && n.answers == s.answers && n.abandoned == s.abandoned
        && n.workers == if s.worker.None? then s.workers
                        else s.workers[s.worker.value :=
                               s.workers[s.worker.value].(abandoned := true, requested := true)]
  {
    hide Run;
    assert [Close, CloserStep, CloserStep, CloserStep] == [Close] + ([CloserStep] + ([CloserStep] + [CloserStep]));
    FirstOf(s, Close, [CloserStep] + ([CloserStep] + [CloserStep]));
    var a := Next(s, Close);
    FirstOf(a, CloserStep, [CloserStep] + [CloserStep]);
    var b := Next(a, CloserStep);
    FirstOf(b, CloserStep, [CloserStep]);
    OneStep(Next(b, CloserStep), CloserStep);
    if !s.Closed() { ClosingSteps(s); }
  }
}
