/** Aggregating failed authentications per surface and window. */
module AuthFailureThrottle {
  import opened Common

  datatype Window = Window(start: int, lastSeen: int, count: nat)

  /** The audit event of one emission. */
  datatype AuthFailed = AuthFailed(createdAt: int, count: nat, firstSeen: int, lastSeen: int)

  function TimelyEvent(now: int): AuthFailed { AuthFailed(now, 1, now, now) }

  function SummaryEvent(w: Window): AuthFailed { AuthFailed(w.lastSeen, w.count, w.start, w.lastSeen) }

  datatype Recorded = Recorded(window: Window, closed: Option<Window>, opens: bool)

  /** The section under the lock: count in the window, or close it and open the next. */
  function RecordIn(window: Option<Window>, now: int, length: int): Recorded {
    if window.Some? && now - window.value.start < length then
      Recorded(window.value.(count := window.value.count + 1, lastSeen := now), None, false)
    else
      Recorded(Window(now, now, 1), if window.Some? && window.value.count > 1 then window else None, true)
  }

  class AuthFailureAuditThrottle {
    const length: int
    var windows: map<string, Window>

    constructor (length: int)
      ensures this.length == length && windows == map[]
    {
      this.length := length;
      windows := map[];
    }

    function WindowOf(surface: string): Option<Window>
      reads this
    {
      if surface in windows then Some(windows[surface]) else None
    }

    /** What this call emits after leaving the lock: the closed window's summary, then the new window's event. */
    method Record(surface: string, now: int) returns (emitted: seq<AuthFailed>)
      modifies this`windows
      ensures windows.Keys == old(windows).Keys + {surface}
      // Within the length of the open window: counted there, and nothing is emitted.
      ensures surface in old(windows) && now < old(windows)[surface].start + length ==>
        && emitted == []
        && windows[surface] == Window(old(windows)[surface].start, now, old(windows)[surface].count + 1)
      // From its end on, or without one: a window opens, after the summary of the old one if that had repeats.
      ensures !(surface in old(windows) && now < old(windows)[surface].start + length) ==>
        && windows[surface] == Window(now, now, 1)
        && var timely := AuthFailed(now, 1, now, now);
        if surface in old(windows) && old(windows)[surface].count > 1 then
          var closed := old(windows)[surface];
          emitted == [AuthFailed(closed.lastSeen, closed.count, closed.start, closed.lastSeen), timely]
        else emitted == [timely]
      ensures forall other | other in old(windows) && other != surface :: windows[other] == old(windows)[other]
      ensures var r := RecordIn(old(WindowOf(surface)), now, length);
        && windows == old(windows)[surface := r.window]
        && emitted == (if r.closed.Some? then [SummaryEvent(r.closed.value)] else [])
                      + (if r.opens then [TimelyEvent(now)] else [])
    {
      emitted := [];
      if surface in windows && now - windows[surface].start < length {
        var window := windows[surface];
        windows := windows[surface := window.(count := window.count + 1, lastSeen := now)];
        return;
      }
      if surface in windows && windows[surface].count > 1 {
        var closed := windows[surface];
        emitted := [AuthFailed(closed.lastSeen, closed.count, closed.start, closed.lastSeen)];
      }
      windows := windows[surface := Window(now, now, 1)];
      emitted := emitted + [AuthFailed(now, 1, now, now)];
    }
  }

  // ---- concurrent records on one surface ----------------------------------------------------

  /** An emission of the k-th window of the surface. */
  datatype Emission = Timely(k: nat, event: AuthFailed) | Summary(k: nat, event: AuthFailed)

  /** `log` holds every window of the surface, the open one last; `pending` what callers have yet to emit after
      leaving the lock. */
  datatype Surface = Surface(length: int, log: seq<Window>, failures: nat, pending: multiset<Emission>,
                             emitted: multiset<Emission>)

  datatype Step = Fail(now: int) | Emit(emission: Emission)

  function Open(s: Surface): Option<Window> { if s.log == [] then None else Some(s.log[|s.log| - 1]) }

  function AfterFail(s: Surface, now: int): Surface {
    var r := RecordIn(Open(s), now, s.length);
    var n := |s.log|;
    if !r.opens then s.(log := s.log[n - 1 := r.window], failures := s.failures + 1)
    else s.(log := s.log + [r.window], failures := s.failures + 1,
            pending := s.pending
              + (if r.closed.Some? then multiset{Summary(n - 1, SummaryEvent(r.closed.value))} else multiset{})
              + multiset{Timely(n, TimelyEvent(now))})
  }

  function Next(s: Surface, step: Step): Surface {
    match step
    case Fail(now) => AfterFail(s, now)
    case Emit(e) =>
      if e in s.pending then s.(pending := s.pending - multiset{e}, emitted := s.emitted + multiset{e}) else s
  }

  function Run(s: Surface, steps: seq<Step>): Surface
    decreases |steps|
  {
    if steps == [] then s else Run(Next(s, steps[0]), steps[1..])
  }

  function Quiet(length: int): Surface { Surface(length, [], 0, multiset{}, multiset{}) }

  // ---- the invariant ------------------------------------------------------------------------

  function Total(log: seq<Window>): nat {
    if log == [] then 0 else Total(log[..|log| - 1]) + log[|log| - 1].count
  }

  /** One event per window as it opens, one summary for each closed window with repeats. */
  function Due(log: seq<Window>): multiset<Emission>
    decreases |log|, 0
  {
    if log == [] then multiset{}
    else Closed(log[..|log| - 1]) + multiset{Timely(|log| - 1, TimelyEvent(log[|log| - 1].start))}
  }

  /** The emissions of windows that are all closed. */
  function Closed(log: seq<Window>): multiset<Emission>
    decreases |log|, 1
  {
    if log == [] then multiset{}
    else
      var k := |log| - 1;
      Due(log) + if log[k].count > 1 then multiset{Summary(k, SummaryEvent(log[k]))} else multiset{}
  }

  predicate Spaced(log: seq<Window>, length: int) {
    forall k | 0 <= k < |log| - 1 :: log[k + 1].start - log[k].start >= length
  }

  predicate Inv(s: Surface) {
    && s.failures == Total(s.log) && s.pending + s.emitted == Due(s.log) && Spaced(s.log, s.length)
    && (forall w | w in s.log :: w.count >= 1)
  }

  /** Writing the open window, or appending one, leaves the front of the log alone. */
  lemma FrontStays(log: seq<Window>, w: Window)
    ensures (log + [w])[..|log|] == log
    ensures log != [] ==> log[|log| - 1 := w][..|log| - 1] == log[..|log| - 1]
  {
  }

  lemma FailCounts(s: Surface, now: int)
    requires s.failures == Total(s.log)
    ensures AfterFail(s, now).failures == Total(AfterFail(s, now).log)
  {
    FrontStays(s.log, RecordIn(Open(s), now, s.length).window);
  }

  lemma FailSpaces(s: Surface, now: int)
    requires Spaced(s.log, s.length) && forall w | w in s.log :: w.count >= 1
    ensures var n := AfterFail(s, now); Spaced(n.log, n.length) && forall w | w in n.log :: w.count >= 1
  {
  }

  lemma FailOwes(s: Surface, now: int)
    requires s.pending + s.emitted == Due(s.log)
    ensures var n := AfterFail(s, now); n.pending + n.emitted == Due(n.log)
  {
    FrontStays(s.log, RecordIn(Open(s), now, s.length).window);
  }

  lemma FailKeeps(s: Surface, now: int)
    requires Inv(s)
    ensures Inv(AfterFail(s, now))
  {
    hide AfterFail;
    hide Total;
    hide Due;
    hide Spaced;
    FailCounts(s, now);
    FailSpaces(s, now);
    FailOwes(s, now);
  }

  lemma {:induction false} RunKeeps(s: Surface, steps: seq<Step>)
    requires Inv(s)
    ensures Inv(Run(s, steps)) && Run(s, steps).length == s.length
    decreases |steps|
  {
    if steps != [] {
      if steps[0].Fail? { FailKeeps(s, steps[0].now); }
      RunKeeps(Next(s, steps[0]), steps[1..]);
    }
  }

  lemma {:induction false} DueCounts(log: seq<Window>, k: nat, e: AuthFailed)
    ensures Due(log)[Timely(k, e)] == if k < |log| && e == TimelyEvent(log[k].start) then 1 else 0
    ensures Due(log)[Summary(k, e)] == if k + 1 < |log| && log[k].count > 1 && e == SummaryEvent(log[k]) then 1 else 0
  {
    if log != [] {
      var front := log[..|log| - 1];
      DueCounts(front, k, e);
    }
  }

  function Failures(steps: seq<Step>): nat {
    if steps == [] then 0 else (if steps[0].Fail? then 1 else 0) + Failures(steps[1..])
  }

  /** Every call adds one to the counter. */
  lemma {:induction false} EveryCallCounts(s: Surface, steps: seq<Step>)
    ensures Run(s, steps).failures == s.failures + Failures(steps)
    decreases |steps|
  {
    if steps != [] { EveryCallCounts(Next(s, steps[0]), steps[1..]); }
  }

  /** Whatever the interleaving of callers, the windows' counts add up to the calls made, so no failure is lost or
      counted twice; and windows start at least the window length apart. */
  lemma FailuresConserved(length: int, steps: seq<Step>)
    ensures var s := Run(Quiet(length), steps);
      s.failures == Total(s.log) == Failures(steps) && Spaced(s.log, length)
  {
    RunKeeps(Quiet(length), steps);
    EveryCallCounts(Quiet(length), steps);
  }

  /** Once every caller has finished, each window has exactly one timely event, and each closed window with
      repeats exactly one summary, which carries its exact count and span; nothing else was emitted. */
  lemma EmittedExactlyOnce(length: int, steps: seq<Step>, k: nat, e: AuthFailed)
    requires Run(Quiet(length), steps).pending == multiset{}
    ensures var s := Run(Quiet(length), steps);
      && s.emitted[Timely(k, e)] == (if k < |s.log| && e == TimelyEvent(s.log[k].start) then 1 else 0)
      && s.emitted[Summary(k, e)] ==
         (if k + 1 < |s.log| && s.log[k].count > 1 && e == SummaryEvent(s.log[k]) then 1 else 0)
  {
    RunKeeps(Quiet(length), steps);
    DueCounts(Run(Quiet(length), steps).log, k, e);
  }

  // ---- which failures a window counts -------------------------------------------------------

  /** The times of the calls, in order. */
  function Times(steps: seq<Step>): seq<int> {
    if steps == [] then [] else (if steps[0].Fail? then [steps[0].now] else []) + Times(steps[1..])
  }

  function Flat(groups: seq<seq<int>>): seq<int> {
    if groups == [] then [] else Flat(groups[..|groups| - 1]) + groups[|groups| - 1]
  }

  /** The window counts exactly these calls, each but the first less than the length after the first. */
  predicate Counts(w: Window, group: seq<int>, length: int) {
    && group != [] && w == Window(group[0], group[|group| - 1], |group|)
    && forall i | 1 <= i < |group| :: group[i] < group[0] + length
  }

  /** The windows cut the calls into groups, and each group begins where the window before it was over. */
  predicate Cuts(log: seq<Window>, groups: seq<seq<int>>, length: int) {
    && |groups| == |log|
    && (forall k | 0 <= k < |log| :: Counts(log[k], groups[k], length))
    && (forall k | 0 < k < |log| :: groups[k][0] >= groups[k - 1][0] + length)
  }

  lemma FlatSnoc(groups: seq<seq<int>>, group: seq<int>)
    ensures Flat(groups + [group]) == Flat(groups) + group
  {
    assert (groups + [group])[..|groups|] == groups;
  }

  lemma FailInside(s: Surface, now: int, groups: seq<seq<int>>) returns (longer: seq<seq<int>>)
    requires Cuts(s.log, groups, s.length) && groups != [] && now < groups[|groups| - 1][0] + s.length
    ensures Cuts(AfterFail(s, now).log, longer, s.length) && Flat(longer) == Flat(groups) + [now]
  {
    var n := |groups|;
    var front, last := groups[..n - 1], groups[n - 1];
    assert Counts(s.log[n - 1], last, s.length) && groups == front + [last];
    longer := front + [last + [now]];
    FlatSnoc(front, last);
    FlatSnoc(front, last + [now]);
    assert Counts(AfterFail(s, now).log[n - 1], last + [now], s.length);
  }

  lemma FailOutside(s: Surface, now: int, groups: seq<seq<int>>) returns (longer: seq<seq<int>>)
    requires Cuts(s.log, groups, s.length) && (groups != [] ==> now >= groups[|groups| - 1][0] + s.length)
    ensures Cuts(AfterFail(s, now).log, longer, s.length) && Flat(longer) == Flat(groups) + [now]
  {
    if groups != [] { assert Counts(s.log[|groups| - 1], groups[|groups| - 1], s.length); }
    longer := groups + [[now]];
    FlatSnoc(groups, [now]);
  }

  lemma FailCuts(s: Surface, now: int, groups: seq<seq<int>>) returns (longer: seq<seq<int>>)
    requires Cuts(s.log, groups, s.length)
    ensures Cuts(AfterFail(s, now).log, longer, s.length) && Flat(longer) == Flat(groups) + [now]
  {
    hide AfterFail;
    hide Flat;
    if groups != [] { assert Counts(s.log[|groups| - 1], groups[|groups| - 1], s.length); }
    if groups != [] && now < groups[|groups| - 1][0] + s.length {
      longer := FailInside(s, now, groups);
    } else {
      longer := FailOutside(s, now, groups);
    }
  }

  lemma StepCuts(s: Surface, step: Step, groups: seq<seq<int>>) returns (longer: seq<seq<int>>)
    requires Cuts(s.log, groups, s.length)
    ensures Next(s, step).length == s.length && Cuts(Next(s, step).log, longer, s.length)
    ensures Flat(longer) == Flat(groups) + if step.Fail? then [step.now] else []
  {
    hide Cuts;
    hide RecordIn;
    longer := groups;
    if step.Fail? { longer := FailCuts(s, step.now, groups); }
  }

  lemma {:induction false} RunCuts(s: Surface, steps: seq<Step>, groups: seq<seq<int>>) returns (longer: seq<seq<int>>)
    requires Cuts(s.log, groups, s.length)
    ensures Cuts(Run(s, steps).log, longer, s.length)
    ensures Flat(longer) == Flat(groups) + Times(steps)
    decreases |steps|
  {
    hide Cuts;
    hide Next;
    hide Flat;
    longer := groups;
    if steps != [] {
      longer := StepCuts(s, steps[0], groups);
      longer := RunCuts(Next(s, steps[0]), steps[1..], longer);
    }
  }

  /** In every run the windows cut the calls into consecutive groups: a window counts its first call and those within
      its length of it, with their number, first and last time, and the next window begins with the first call
      outside. */
  lemma WindowsCutTheCalls(length: int, steps: seq<Step>) returns (groups: seq<seq<int>>)
    ensures Flat(groups) == Times(steps) && Cuts(Run(Quiet(length), steps).log, groups, length)
  {
    groups := RunCuts(Quiet(length), steps, []);
  }
}
