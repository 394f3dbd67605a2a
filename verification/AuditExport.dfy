/** The batching export worker: emitters, a closer and one worker around a bounded queue. */
module AuditExport {
  type Event = nat

  datatype Item = Record(event: Event) | Stop

  datatype Worker = Waiting | Collecting(batch: seq<Event>) | Sending(batch: seq<Event>, last: bool) | Exited

  datatype Closer = NotClosed | Putting | Put | TimedOut

  /** `accepted` and `handed` are the history: what emit took, and the batches given to the sender. */
  datatype Export = Export(
    capacity: int, batchSize: nat,
    queue: seq<Item>, closer: Closer, worker: Worker,
    accepted: seq<Event>, handed: seq<seq<Event>>)
  {
    /** A queue without a positive bound is never full. */
    predicate Full() { 0 < capacity <= |queue| }
  }

  datatype Step =
    | Emit(event: Event)
    | Close | PutStop | GiveUp
    | Take | TakeMore | StopCollecting | Send

  function AfterEmit(x: Export, event: Event): Export {
    if !x.closer.NotClosed? || x.Full() then x
    else x.(queue := x.queue + [Record(event)], accepted := x.accepted + [event])
  }

  function AfterTake(x: Export): Export {
    if !x.worker.Waiting? || x.queue == [] then x
    else match x.queue[0]
      case Stop => x.(queue := x.queue[1..], worker := Exited)
      case Record(event) => x.(queue := x.queue[1..], worker := Collecting([event]))
  }

  function AfterTakeMore(x: Export): Export {
    if !x.worker.Collecting? || |x.worker.batch| >= x.batchSize || x.queue == [] then x
    else match x.queue[0]
      case Stop => x.(queue := x.queue[1..], worker := Sending(x.worker.batch, true))
      case Record(event) => x.(queue := x.queue[1..], worker := Collecting(x.worker.batch + [event]))
  }

  function AfterSend(x: Export): Export {
    if !x.worker.Sending? then x
    else x.(handed := x.handed + [x.worker.batch], worker := if x.worker.last then Exited else Waiting)
  }

  function Next(x: Export, step: Step): Export {
    match step
    case Emit(event) => AfterEmit(x, event)
    case Close => if x.closer.NotClosed? then x.(closer := Putting) else x
    case PutStop => if x.closer.Putting? && !x.Full() then x.(queue := x.queue + [Stop], closer := Put) else x
    // The wait ends without the marker only while there is no room.
    case GiveUp => if x.closer.Putting? && x.Full() then x.(closer := TimedOut) else x
    case Take => AfterTake(x)
    case TakeMore => AfterTakeMore(x)
    // The batch is full, the wait is over, or the queue stayed empty.
    case StopCollecting => if x.worker.Collecting? then x.(worker := Sending(x.worker.batch, false)) else x
    case Send => AfterSend(x)
  }

  function Run(x: Export, steps: seq<Step>): Export
    decreases |steps|
  {
    if steps == [] then x else Run(Next(x, steps[0]), steps[1..])
  }

  function Opened(capacity: int, batchSize: nat): Export {
    Export(capacity, batchSize, [], NotClosed, Waiting, [], [])
  }

  // ---- the invariant ------------------------------------------------------------------------

  function Joined(batches: seq<seq<Event>>): seq<Event> {
    if batches == [] then [] else Joined(batches[..|batches| - 1]) + batches[|batches| - 1]
  }

  function EventsOf(queue: seq<Item>): seq<Event> {
    if queue == [] then []
    else EventsOf(queue[..|queue| - 1]) + match queue[|queue| - 1] case Record(event) => [event] case Stop => []
  }

  function InHand(worker: Worker): seq<Event> {
    match worker case Collecting(batch) => batch case Sending(batch, _) => batch case _ => []
  }

  predicate Conserved(x: Export) {
    x.accepted == Joined(x.handed) + InHand(x.worker) + EventsOf(x.queue)
  }

  predicate BatchOk(batch: seq<Event>, batchSize: nat) { 1 <= |batch| <= batchSize }

  /** The worker has met the stop marker. */
  predicate Stopping(worker: Worker) { worker.Exited? || (worker.Sending? && worker.last) }

  predicate QueueOk(x: Export) {
    && (x.capacity > 0 ==> |x.queue| <= x.capacity)
    // A stop marker is the last thing ever put, and is put once.
    && (forall i | 0 <= i < |x.queue| && x.queue[i].Stop? :: i == |x.queue| - 1)
    && (x.closer.Put? <==> Stopping(x.worker) || Stop in x.queue)
    && (Stopping(x.worker) ==> x.queue == [])
  }

  predicate BatchesOk(x: Export) {
    && x.batchSize > 0
    && (forall batch | batch in x.handed :: BatchOk(batch, x.batchSize))
    && (x.worker.Collecting? || x.worker.Sending? ==> BatchOk(x.worker.batch, x.batchSize))
  }

  predicate Inv(x: Export) { Conserved(x) && QueueOk(x) && BatchesOk(x) }

  lemma {:induction false} EventsFromFront(queue: seq<Item>)
    requires queue != []
    ensures EventsOf(queue) == (match queue[0] case Record(event) => [event] case Stop => []) + EventsOf(queue[1..])
  {
    if |queue| > 1 {
      var front := queue[..|queue| - 1];
      EventsFromFront(front);
      assert front[1..] == queue[1..][..|queue| - 2];
    }
  }

  lemma EventAppended(queue: seq<Item>, item: Item)
    ensures EventsOf(queue + [item]) == EventsOf(queue) + match item case Record(event) => [event] case Stop => []
  {
    assert (queue + [item])[..|queue|] == queue;
  }

  lemma BatchAppended(batches: seq<seq<Event>>, batch: seq<Event>)
    ensures Joined(batches + [batch]) == Joined(batches) + batch
  {
    assert (batches + [batch])[..|batches|] == batches;
  }

  lemma EmptyHanded(x: Export)
    requires Conserved(x) && (x.worker.Waiting? || x.worker.Exited?)
    ensures x.accepted == Joined(x.handed) + EventsOf(x.queue)
  {
    assert Joined(x.handed) + [] == Joined(x.handed);
  }

  lemma StepConserves(x: Export, step: Step)
    requires Inv(x)
    ensures Conserved(Next(x, step))
  {
    hide Joined;
    hide EventsOf;
    match step
    case Emit(event) => EventAppended(x.queue, Record(event));
    case PutStop => EventAppended(x.queue, Stop);
    case Take => if x.queue != [] { EventsFromFront(x.queue); }
    case TakeMore => if x.queue != [] { EventsFromFront(x.queue); }
    case Send => if x.worker.Sending? { BatchAppended(x.handed, x.worker.batch); }
    case _ =>
  }

  lemma StepKeeps(x: Export, step: Step)
    requires Inv(x)
    ensures Inv(Next(x, step))
  {
    hide Next;
    hide Conserved;
    hide QueueOk;
    hide BatchesOk;
    StepConserves(x, step);
    StepKeepsQueue(x, step);
    StepKeepsBatches(x, step);
  }

  lemma TookFirst(queue: seq<Item>)
    requires queue != []
    ensures Stop in queue <==> queue[0] == Stop || Stop in queue[1..]
    ensures forall i | 0 <= i < |queue[1..]| :: queue[1..][i] == queue[i + 1]
  {
  }

  lemma StepKeepsQueue(x: Export, step: Step)
    requires QueueOk(x)
    ensures QueueOk(Next(x, step))
  {
    if x.queue != [] { TookFirst(x.queue); }
    match step
    case Take =>
    case TakeMore =>
    case PutStop =>
    case Emit(_) =>
    case _ =>
  }

  lemma StepKeepsBatches(x: Export, step: Step)
    requires BatchesOk(x)
    ensures BatchesOk(Next(x, step))
  {
  }

  lemma {:induction false} RunKeeps(x: Export, steps: seq<Step>)
    requires Inv(x)
    ensures Inv(Run(x, steps))
    decreases |steps|
  {
    hide Inv;
    hide Next;
    if steps != [] {
      StepKeeps(x, steps[0]);
      RunKeeps(Next(x, steps[0]), steps[1..]);
    }
  }

  // ---- what the export promises -------------------------------------------------------------

  /** At every moment the accepted events are, in order, the batches handed over, the batch in hand and the
      queue; every batch holds one to batchSize events; and nothing is queued behind the stop marker. */
  lemma NothingLostOrReordered(capacity: int, batchSize: nat, steps: seq<Step>)
    requires batchSize > 0
    ensures var x := Run(Opened(capacity, batchSize), steps);
      && x.accepted == Joined(x.handed) + InHand(x.worker) + EventsOf(x.queue)
      && (forall batch | batch in x.handed :: 1 <= |batch| <= x.batchSize)
      && (forall i | 0 <= i < |x.queue| && x.queue[i].Stop? :: i == |x.queue| - 1)
  {
    RunKeeps(Opened(capacity, batchSize), steps);
  }

  /** When the worker has left, every accepted event has been handed over exactly once, in order, and no
      further step hands over or accepts anything. */
  lemma EverythingHandedOnExit(capacity: int, batchSize: nat, steps: seq<Step>, step: Step)
    requires batchSize > 0 && Run(Opened(capacity, batchSize), steps).worker.Exited?
    ensures var x := Run(Opened(capacity, batchSize), steps);
      x.queue == [] && x.accepted == Joined(x.handed)
      && Next(x, step).accepted == x.accepted && Next(x, step).handed == x.handed
  {
    RunKeeps(Opened(capacity, batchSize), steps);
  }

  /** While the closer waits for room: the worker may have taken from the front, and nothing else has happened. */
  predicate Drained(x: Export, n: Export) {
    && n.closer == x.closer && n.accepted == x.accepted && n.capacity == x.capacity
    && |n.queue| <= |x.queue| && n.queue == x.queue[|x.queue| - |n.queue|..]
  }

  lemma WaitingStep(x: Export, step: Step)
    requires x.closer.Putting? && !step.PutStop? && !step.GiveUp?
    ensures Drained(x, Next(x, step))
  {
  }

  lemma {:induction false} WaitingRun(x: Export, steps: seq<Step>)
    requires x.closer.Putting? && forall step | step in steps :: !step.PutStop? && !step.GiveUp?
    ensures Drained(x, Run(x, steps))
    decreases |steps|
  {
    hide Next;
    if steps != [] {
      var n := Next(x, steps[0]);
      WaitingStep(x, steps[0]);
      WaitingRun(n, steps[1..]);
    }
  }

  /** However the others move while close() waits for room, what is queued behind the worker's back only shrinks at
      the front. The wait can end without the stop marker exactly if the queue was full when it began and nothing has
      been taken since, and with the marker, put last, exactly otherwise. */
  lemma WaitEndsWithTheMarkerIffRoom(capacity: int, batchSize: nat, before: seq<Step>, waiting: seq<Step>)
    requires batchSize > 0 && Run(Opened(capacity, batchSize), before).closer.Putting?
    requires forall step | step in waiting :: !step.PutStop? && !step.GiveUp?
    ensures var x := Run(Opened(capacity, batchSize), before); var n := Run(x, waiting);
      && Drained(x, n)
      && (Next(n, GiveUp).closer.TimedOut? <==> x.Full() && n.queue == x.queue)
      && (Next(n, PutStop).closer.Put? <==> !(x.Full() && n.queue == x.queue))
      && (Next(n, PutStop).closer.Put? ==> Next(n, PutStop).queue == n.queue + [Stop])
  {
    hide Run;
    hide Inv;
    hide Next;
    hide Drained;
    hide Export.Full;
    var x := Run(Opened(capacity, batchSize), before);
    assert Inv(Opened(capacity, batchSize)) by { OpenedIsOk(capacity, batchSize); }
    RunKeeps(Opened(capacity, batchSize), before);
    WaitingRun(x, waiting);
    WaitEnds(x, Run(x, waiting));
  }

  lemma OpenedIsOk(capacity: int, batchSize: nat)
    requires batchSize > 0
    ensures Inv(Opened(capacity, batchSize))
  {
  }

  lemma WaitEnds(x: Export, n: Export)
    requires Inv(x) && x.closer.Putting? && Drained(x, n)
    ensures Next(n, GiveUp).closer.TimedOut? <==> x.Full() && n.queue == x.queue
    ensures Next(n, PutStop).closer.Put? <==> !(x.Full() && n.queue == x.queue)
    ensures Next(n, PutStop).closer.Put? ==> Next(n, PutStop).queue == n.queue + [Stop]
  {
    hide Conserved;
    hide BatchesOk;
    assert x.capacity > 0 ==> |x.queue| <= x.capacity;
    assert |n.queue| == |x.queue| ==> n.queue == x.queue;
  }

  // ---- the worker by itself -----------------------------------------------------------------

  function Taking(n: nat): seq<Step> { if n == 0 then [] else [TakeMore] + Taking(n - 1) }

  lemma StopsAndSends(x: Export)
    requires x.worker.Collecting?
    ensures Run(x, [StopCollecting, Send]) == x.(worker := Waiting, handed := x.handed + [x.worker.batch])
  {
    var stopped := Next(x, StopCollecting);
    assert [StopCollecting, Send][1..] == [Send] && [Send][1..] == [];
    assert Run(stopped, [Send]) == Run(Next(stopped, Send), []) == Next(stopped, Send);
  }

  lemma {:induction false} TakesMore(x: Export, n: nat)
    requires x.worker.Collecting? && |x.worker.batch| + n <= x.batchSize && n <= |x.queue|
    requires forall i | 0 <= i < n :: x.queue[i].Record?
    ensures Run(x, Taking(n) + [StopCollecting, Send]) ==
      x.(queue := x.queue[n..], worker := Waiting, handed := x.handed + [x.worker.batch + EventsOf(x.queue[..n])])
    decreases n
  {
    hide Next;
    hide EventsOf;
    var steps := Taking(n) + [StopCollecting, Send];
    if n == 0 {
      assert steps == [StopCollecting, Send];
      StopsAndSends(x);
      NoEvents();
      assert x.worker.batch + [] == x.worker.batch && x.queue[0..] == x.queue && x.queue[..0] == [];
    } else {
      var y := Next(x, TakeMore);
      TakesOne(x);
      assert steps[0] == TakeMore && steps[1..] == Taking(n - 1) + [StopCollecting, Send];
      TakesMore(y, n - 1);
      EventsFromFront(x.queue[..n]);
      assert x.queue[..n][1..] == x.queue[1..][..n - 1] && x.queue[1..][n - 1..] == x.queue[n..];
      var first := [x.queue[0].event];
      assert x.worker.batch + first + EventsOf(x.queue[1..][..n - 1]) ==
        x.worker.batch + (first + EventsOf(x.queue[1..][..n - 1]));
    }
  }

  lemma NoEvents()
    ensures EventsOf([]) == []
  {
  }

  lemma TakesOne(x: Export)
    requires x.worker.Collecting? && |x.worker.batch| < x.batchSize && x.queue != [] && x.queue[0].Record?
    ensures Next(x, TakeMore) ==
      x.(queue := x.queue[1..], worker := Collecting(x.worker.batch + [x.queue[0].event]))
  {
  }

  /** A waiting worker can take any number of the events at the front of the queue, up to the batch size, and hands
      exactly those over, in order; at the stop marker it leaves. */
  lemma WorkerHandsOver(x: Export, n: nat)
    requires x.worker.Waiting? && 1 <= n <= x.batchSize && n <= |x.queue|
    requires forall i | 0 <= i < n :: x.queue[i].Record?
    ensures Run(x, [Take] + (Taking(n - 1) + [StopCollecting, Send])) ==
      x.(queue := x.queue[n..], handed := x.handed + [EventsOf(x.queue[..n])])
  {
    hide Taking;
    hide EventsOf;
    var steps := [Take] + (Taking(n - 1) + [StopCollecting, Send]);
    var y := Next(x, Take);
    assert steps[1..] == Taking(n - 1) + [StopCollecting, Send];
    TakesMore(y, n - 1);
    EventsFromFront(x.queue[..n]);
    assert x.queue[..n][1..] == x.queue[1..][..n - 1];
    assert x.queue[1..][n - 1..] == x.queue[n..];
  }

  lemma WorkerStops(x: Export, batch: seq<Event>)
    requires x.queue != [] && x.queue[0].Stop?
    ensures x.worker.Waiting? ==> Next(x, Take) == x.(queue := x.queue[1..], worker := Exited)
    ensures x.worker == Collecting(batch) && |batch| < x.batchSize ==>
      Next(Next(x, TakeMore), Send) == x.(queue := x.queue[1..], worker := Exited, handed := x.handed + [batch])
  {
  }

  // ---- the sink, changed in place -----------------------------------------------------------

  class OtlpHttpExport {
    const capacity: int
    const batchSize: nat
    var queue: seq<Item>
    var closer: Closer
    var worker: Worker
    ghost var accepted: seq<Event>
    ghost var handed: seq<seq<Event>>

    ghost function Contents(): Export
      reads this
    {
      Export(capacity, batchSize, queue, closer, worker, accepted, handed)
    }

    ghost predicate Valid() reads this { Inv(Contents()) }

    constructor (capacity: int, batchSize: nat)
      requires batchSize > 0
      ensures Valid() && Contents() == Opened(capacity, batchSize)
    {
      this.capacity, this.batchSize := capacity, batchSize;
      queue, closer, worker, accepted, handed := [], NotClosed, Waiting, [], [];
    }

    method EmitEvent(event: Event)
      requires Valid()
      modifies this`queue, this`accepted
      ensures Valid() && Contents() == Next(old(Contents()), Emit(event))
      // Accepted behind everything queued, or dropped without a trace.
      ensures if closer.NotClosed? && !(0 < capacity <= |old(queue)|)
              then queue == old(queue) + [Record(event)] && accepted == old(accepted) + [event]
              else queue == old(queue) && accepted == old(accepted)
    {
      ghost var before := Contents();
      if closer.NotClosed? && !(0 < capacity <= |queue|) {
        queue := queue + [Record(event)];
        accepted := accepted + [event];
      }
      StepKeeps(before, Emit(event));
    }

    /** close() takes the state lock first and blocks on the queue only afterwards. */
    method MarkClosed()
      requires Valid()
      modifies this`closer
      ensures Valid() && Contents() == Next(old(Contents()), Close)
      ensures closer == if old(closer).NotClosed? then Putting else old(closer)
    {
      ghost var before := Contents();
      if closer.NotClosed? { closer := Putting; }
      StepKeeps(before, Close);
    }

    /** How the wait for room ends: with the marker in the queue if there is room by then, or else given up at the
        timeout. Whoever moves while it waits takes steps of its own. */
    method EnqueueStop() returns (put: bool)
      requires Valid() && closer.Putting?
      modifies this`closer, this`queue
      ensures put <==> !(0 < capacity <= |old(queue)|)
      ensures queue == if put then old(queue) + [Stop] else old(queue)
      ensures Valid() && Contents() == Next(old(Contents()), if put then PutStop else GiveUp)
    {
      ghost var before := Contents();
      put := !(0 < capacity <= |queue|);
      if put {
        queue, closer := queue + [Stop], Put;
      } else {
        closer := TimedOut;
      }
      StepKeeps(before, if put then PutStop else GiveUp);
    }

    /** One round of the worker while nobody else moves: take a first event, fill the batch, hand it over. */
    method RunOnce() returns (ran: bool)
      requires Valid() && worker.Waiting?
      modifies this`queue, this`worker, this`handed
      ensures Valid() && (worker.Waiting? || worker.Exited?) && ran == (old(queue) != [])
      ensures accepted == old(accepted) && InHand(worker) == []
      ensures Joined(handed) + EventsOf(queue) == Joined(old(handed)) + EventsOf(old(queue))
      ensures ran && old(queue)[0].Record? ==>
        && |queue| < |old(queue)| && |handed| == |old(handed)| + 1 && handed[..|old(handed)|] == old(handed)
        // The batch is as full as the queue allows.
        && (|handed[|old(handed)|]| >= batchSize || queue == [] || worker.Exited?)
      ensures ran && old(queue)[0].Stop? ==> worker.Exited? && handed == old(handed)
      ensures !ran ==> worker.Waiting? && handed == old(handed) && queue == old(queue)
    {
      hide QueueOk;
      hide BatchesOk;
      hide EventsOf;
      hide Joined;
      if queue == [] { return false; }
      ghost var before := Contents();
      EmptyHanded(before);
      var item := queue[0];
      queue := queue[1..];
      StepKeeps(before, Take);
      if item.Stop? {
        worker := Exited;
        EmptyHanded(Contents());
        return true;
      }
      worker := Collecting([item.event]);
      var last := false;
      while |worker.batch| < batchSize && queue != [] && !last
        invariant worker.Collecting? && Valid() && !last && accepted == before.accepted && handed == before.handed
        invariant |queue| < |before.queue|
        decreases |queue|
      {
        StepKeeps(Contents(), TakeMore);
        var next := queue[0];
        queue := queue[1..];
        if next.Stop? {
          worker := Sending(worker.batch, true);
          last := true;
          break;
        }
        worker := Collecting(worker.batch + [next.event]);
      }
      if !last {
        StepKeeps(Contents(), StopCollecting);
        worker := Sending(worker.batch, false);
      }
      StepKeeps(Contents(), Send);
      handed := handed + [worker.batch];
      worker := if last then Exited else Waiting;
      EmptyHanded(Contents());
      return true;
    }
  }

  // ---- sending one batch --------------------------------------------------------------------

  datatype Reply = Delivered | Transient | Permanent

  /** The attempt that ends the sending: the first that is not transient, or the last allowed. */
  function LastAttempt(replies: nat -> Reply, attempt: nat, maxAttempts: nat): (last: nat)
    requires 1 <= attempt <= maxAttempts
    ensures attempt <= last <= maxAttempts
    ensures forall k | attempt <= k < last :: replies(k).Transient?
    ensures last < maxAttempts ==> !replies(last).Transient?
    decreases maxAttempts - attempt
  {
    if attempt == maxAttempts || !replies(attempt).Transient? then attempt
    else LastAttempt(replies, attempt + 1, maxAttempts)
  }

  function Pow2(n: nat): nat { if n == 0 then 1 else 2 * Pow2(n - 1) }

  /** Sends at most maxAttempts times, and goes on only after a transient failure, waiting twice as long each time. */
  method SendBatch(replies: nat -> Reply, maxAttempts: nat, backoff: nat)
    returns (attempts: nat, delivered: bool, waits: seq<nat>)
    requires maxAttempts > 0
    ensures attempts == LastAttempt(replies, 1, maxAttempts) && delivered == replies(attempts).Delivered?
    ensures |waits| == attempts - 1 && forall k | 0 <= k < |waits| :: waits[k] == backoff * Pow2(k)
  {
    waits := [];
    attempts := 1;
    while true
      invariant 1 <= attempts <= maxAttempts
      invariant LastAttempt(replies, 1, maxAttempts) == LastAttempt(replies, attempts, maxAttempts)
      invariant |waits| == attempts - 1 && forall k | 0 <= k < |waits| :: waits[k] == backoff * Pow2(k)
      decreases maxAttempts - attempts
    {
      var reply := replies(attempts);
      if reply.Delivered? { return attempts, true, waits; }
      if attempts >= maxAttempts || !reply.Transient? { return attempts, false, waits; }
      waits := waits + [backoff * Pow2(attempts - 1)];
      attempts := attempts + 1;
    }
  }
}
