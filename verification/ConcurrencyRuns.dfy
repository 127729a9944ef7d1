/** Runs of the concurrency controller on one key: slot accounting, the wait queue,
    and exactly-once settlement of every acquisition. */
module ConcurrencyRuns {
  import opened Prelude
  import opened Concurrency

  /** What can happen. An acquisition is identified by its arrival number. `Release` comes from the
      token of a grant, which gives its slot back once; `TimerFires` from a timer still set. */
  datatype Event =
    | Acquire(priority: TaskPriority, now: int, pressure: bool)
    | Release(id: nat)
    | TimerFires(id: nat)
    | Report(success: bool, now: int)
    | SetLimit(limit: Limit)
    | Reset

  datatype Outcome = Resolved | TimedOut | Refused

  /** One settlement of the promise that acquisition `id` returned. */
  datatype Settlement = Settlement(id: nat, outcome: Outcome)

  /** A key together with its clients: `outstanding` grants not yet released, timers still set,
      all settlements so far, and the largest finite limit that has been in force. */
  datatype World = World(
    key: KeyState, arrivals: nat, outstanding: set<nat>, timers: set<nat>,
    settled: seq<Settlement>, peak: int)

  ghost function Start(limit: int): World {
    World(KeyState(0, [], Finite(limit), 0, 0, NEW_CIRCUIT), 0, {}, {}, [], limit)
  }

  ghost predicate Enabled(w: World, e: Event) {
    match e
    case Release(id) => id in w.outstanding
    case TimerFires(id) => id in w.timers
    case _ => true
  }

  function Peak(peak: int, limit: Limit): int {
    if limit.Finite? then Max(peak, limit.n) else peak
  }

  ghost function Step(w: World, e: Event): World {
    match e
    case Acquire(priority, now, pressure) =>
      var id := w.arrivals;
      var (admission, key) := AcquireOn(w.key, Waiter(id, priority), now, pressure);
      var w := w.(key := key, arrivals := id + 1);
      (match admission
       case Granted => w.(outstanding := w.outstanding + {id}, settled := w.settled + [Settlement(id, Resolved)])
       case Queued => w.(timers := w.timers + {id})
       case RejectedByCircuit => w.(settled := w.settled + [Settlement(id, Refused)])
       case RejectedByPressure => w.(settled := w.settled + [Settlement(id, Refused)]))
    case Release(id) =>
      var (next, key) := ReleaseOn(w.key);
      var w := w.(key := key, outstanding := w.outstanding - {id});
      if next.None? then w
      else w.(outstanding := w.outstanding + {next.value.id}, timers := w.timers - {next.value.id},
              settled := w.settled + [Settlement(next.value.id, Resolved)])
    case TimerFires(id) =>
      w.(key := TimeOutOn(w.key, id), timers := w.timers - {id}, settled := w.settled + [Settlement(id, TimedOut)])
    case Report(success, now) =>
      var key := ReportOn(w.key, success, now);
      w.(key := key, peak := Peak(w.peak, key.limit))
    case SetLimit(limit) =>
      var key := LimitOn(w.key, limit);
      w.(key := key, peak := Peak(w.peak, key.limit))
    case Reset => w.(key := w.key.(circuit := OnReset(w.key.circuit)))
  }

  /** `events` can happen from `w`, and the key's limit stays finite throughout. */
  ghost predicate Possible(w: World, events: seq<Event>)
    decreases |events|
  {
    w.key.limit.Finite? &&
    (events == [] || (Enabled(w, events[0]) && Possible(Step(w, events[0]), events[1..])))
  }

  ghost function After(w: World, events: seq<Event>): World
    decreases |events|
  {
    if events == [] then w else After(Step(w, events[0]), events[1..])
  }

  // ---------------------------------------------------------------- the wait queue

  /** More urgent, or as urgent and earlier. */
  predicate Precedes(a: Waiter, b: Waiter) {
    a.priority.Rank() < b.priority.Rank() || (a.priority.Rank() == b.priority.Rank() && a.id < b.id)
  }

  ghost predicate Ordered(queue: seq<Waiter>) {
    forall i, j :: 0 <= i < j < |queue| ==> Precedes(queue[i], queue[j])
  }

  ghost function Ids(queue: seq<Waiter>): set<nat> {
    set w | w in queue :: w.id
  }

  lemma {:induction false} InsertIndexSplits(queue: seq<Waiter>, priority: TaskPriority)
    requires Ordered(queue)
    ensures forall i :: 0 <= i < InsertIndex(queue, priority) ==> queue[i].priority.Rank() <= priority.Rank()
    ensures forall i :: InsertIndex(queue, priority) <= i < |queue| ==> queue[i].priority.Rank() > priority.Rank()
  {
    if queue != [] && queue[0].priority.Rank() <= priority.Rank() {
      InsertIndexSplits(queue[1..], priority);
    }
  }

  /** Priority insertion keeps the order: the newcomer goes behind its own class. */
  lemma EnqueueKeepsOrder(queue: seq<Waiter>, w: Waiter)
    requires Ordered(queue) && forall v :: v in queue ==> v.id < w.id
    ensures Ordered(Enqueue(queue, w))
  {
    InsertIndexSplits(queue, w.priority);
    var i := InsertIndex(queue, w.priority);
    var r := Enqueue(queue, w);
    forall x, y | 0 <= x < y < |r| ensures Precedes(r[x], r[y]) {
      if x == i {
        assert r[y] == queue[y - 1];
      } else if y == i {
        assert queue[x] in queue;
      }
    }
  }

  lemma EnqueueAdds(queue: seq<Waiter>, w: Waiter)
    ensures forall v :: v in Enqueue(queue, w) <==> v in queue || v == w
    ensures Ids(Enqueue(queue, w)) == Ids(queue) + {w.id}
  {
    var i := InsertIndex(queue, w.priority);
    assert Enqueue(queue, w)[i] == w;
    assert queue == queue[..i] + queue[i..];
  }

  lemma {:induction false} RemoveKeepsOthers(queue: seq<Waiter>, id: nat)
    requires Distinct(queue)
    ensures forall v :: v in Remove(queue, id) <==> v in queue && v.id != id
  {
    if queue != [] {
      assert queue == [queue[0]] + queue[1..];
      assert forall k :: 0 <= k < |queue| - 1 ==> queue[1..][k] == queue[k + 1];
      if queue[0].id != id {
        RemoveKeepsOthers(queue[1..], id);
      }
    }
  }

  lemma {:induction false} RemoveKeepsOrder(queue: seq<Waiter>, id: nat)
    requires Ordered(queue) && Distinct(queue)
    ensures Ordered(Remove(queue, id)) && Distinct(Remove(queue, id))
    ensures forall v :: v in Remove(queue, id) <==> v in queue && v.id != id
  {
    RemoveKeepsOthers(queue, id);
    if queue != [] {
      TailStaysOrdered(queue);
      if queue[0].id != id {
        RemoveKeepsOrder(queue[1..], id);
        HeadStaysFirst(queue[0], Remove(queue[1..], id));
      }
    }
  }

  lemma TailStaysOrdered(queue: seq<Waiter>)
    requires queue != [] && Ordered(queue) && Distinct(queue)
    ensures Ordered(queue[1..]) && Distinct(queue[1..])
    ensures forall v :: v in queue[1..] ==> Precedes(queue[0], v) && queue[0].id != v.id
  {
    assert forall k :: 0 <= k < |queue| - 1 ==> queue[1..][k] == queue[k + 1];
  }

  lemma HeadStaysFirst(head: Waiter, rest: seq<Waiter>)
    requires Ordered(rest) && Distinct(rest)
    requires forall v :: v in rest ==> Precedes(head, v) && head.id != v.id
    ensures Ordered([head] + rest) && Distinct([head] + rest)
  {
    assert forall k :: 1 <= k < |rest| + 1 ==> ([head] + rest)[k] == rest[k - 1];
  }

  ghost predicate Distinct(queue: seq<Waiter>) {
    forall i, j :: 0 <= i < j < |queue| ==> queue[i].id != queue[j].id
  }

  // ---------------------------------------------------------------- the invariant of every run

  /** The queue is in order, and exactly the queued acquisitions have a timer. */
  ghost predicate QueueInvariant(queue: seq<Waiter>, timers: set<nat>, arrivals: nat) {
    && Ordered(queue) && Distinct(queue)
    && timers == Ids(queue)
    && forall v :: v in queue ==> v.id < arrivals
  }

  ghost function SettledIds(settled: seq<Settlement>): set<nat> {
    set x | x in settled :: x.id
  }

  ghost predicate SettledOnce(settled: seq<Settlement>) {
    forall i, j :: 0 <= i < j < |settled| ==> settled[i].id != settled[j].id
  }

  ghost function Arrived(arrivals: nat): (ids: set<nat>)
    ensures forall id :: id in ids <==> 0 <= id < arrivals
  {
    if arrivals == 0 then {} else Arrived(arrivals - 1) + {arrivals - 1}
  }

  /** Every acquisition so far is either settled, once, or still queued. */
  ghost predicate SettlementInvariant(settled: seq<Settlement>, timers: set<nat>, arrivals: nat) {
    && SettledOnce(settled)
    && SettledIds(settled) !! timers
    && SettledIds(settled) + timers == Arrived(arrivals)
  }

  /** Each slot in use belongs to one grant that has not been released. */
  ghost predicate SlotInvariant(w: World) {
    && w.key.count == |w.outstanding|
    && (w.key.limit.Finite? ==> w.key.limit.n <= w.peak)
    && w.key.count <= Max(0, w.peak)
  }

  /** Everything but the count of slots in use; it also survives releases that nobody owns. */
  ghost predicate Bookkept(w: World) {
    && QueueInvariant(w.key.queue, w.timers, w.arrivals)
    && SettlementInvariant(w.settled, w.timers, w.arrivals)
    && w.outstanding <= SettledIds(w.settled)
  }

  ghost predicate Invariant(w: World) {
    Bookkept(w) && SlotInvariant(w)
  }

  /** By how much the outstanding grants exceed the active count. */
  ghost function Drift(w: World): int {
    |w.outstanding| - w.key.count
  }

  /** A release has an effect on the controller: a waiter to admit or a count to lower. */
  predicate Busy(k: KeyState) {
    k.queue != [] || k.count > 0
  }

  /** What an event adds to the drift: a release frees a slot of the controller when the key is busy,
      and ends a grant when its caller owns one. */
  ghost function DriftOf(w: World, e: Event): int {
    if e.Release? then (if Busy(w.key) then 1 else 0) - (if e.id in w.outstanding then 1 else 0) else 0
  }

  lemma ArrivesSettled(settled: seq<Settlement>, timers: set<nat>, arrivals: nat, outcome: Outcome)
    requires SettlementInvariant(settled, timers, arrivals)
    ensures SettlementInvariant(settled + [Settlement(arrivals, outcome)], timers, arrivals + 1)
    ensures SettledIds(settled + [Settlement(arrivals, outcome)]) == SettledIds(settled) + {arrivals}
    ensures arrivals !in SettledIds(settled)
  {
    assert arrivals !in Arrived(arrivals);
    assert Arrived(arrivals + 1) == Arrived(arrivals) + {arrivals};
  }

  lemma ArrivalIsSettled(w: World, outcome: Outcome)
    requires Bookkept(w)
    ensures w.arrivals !in w.outstanding
    ensures Bookkept(w.(arrivals := w.arrivals + 1, settled := w.settled + [Settlement(w.arrivals, outcome)],
                        outstanding := if outcome.Resolved? then w.outstanding + {w.arrivals} else w.outstanding))
  {
    ArrivesSettled(w.settled, w.timers, w.arrivals, outcome);
  }

  lemma ArrivalIsQueued(w: World, priority: TaskPriority)
    requires Bookkept(w)
    ensures Bookkept(w.(key := w.key.(queue := Enqueue(w.key.queue, Waiter(w.arrivals, priority))),
                        arrivals := w.arrivals + 1, timers := w.timers + {w.arrivals}))
  {
    JoinsQueue(w.key.queue, w.timers, Waiter(w.arrivals, priority));
  }

  lemma AcquireKeepsBooks(w: World, priority: TaskPriority, now: int, pressure: bool)
    requires Bookkept(w) && w.key.limit.Finite?
    ensures var t := Step(w, Acquire(priority, now, pressure));
            Bookkept(t) && Drift(t) == Drift(w)
  {
    match AcquireOn(w.key, Waiter(w.arrivals, priority), now, pressure).0
    case Granted => ArrivalIsSettled(w, Resolved);
    case Queued => ArrivalIsQueued(w, priority);
    case RejectedByCircuit => ArrivalIsSettled(w, Refused);
    case RejectedByPressure => ArrivalIsSettled(w, Refused);
  }

  lemma JoinsQueue(queue: seq<Waiter>, timers: set<nat>, w: Waiter)
    requires QueueInvariant(queue, timers, w.id)
    ensures QueueInvariant(Enqueue(queue, w), timers + {w.id}, w.id + 1)
  {
    EnqueueKeepsOrder(queue, w);
    EnqueueAdds(queue, w);
  }

  lemma HeadLeaves(queue: seq<Waiter>, timers: set<nat>, arrivals: nat)
    requires queue != [] && QueueInvariant(queue, timers, arrivals)
    ensures QueueInvariant(queue[1..], timers - {queue[0].id}, arrivals) && queue[0].id in timers
  {
    assert queue == [queue[0]] + queue[1..];
    assert forall v :: v in queue <==> v == queue[0] || v in queue[1..];
    assert forall k :: 0 <= k < |queue| - 1 ==> queue[1..][k] == queue[k + 1];
    assert queue[0] in queue;
  }

  lemma WaiterTakesOver(w: World, id: nat)
    requires Bookkept(w) && w.key.limit.Finite? && w.key.queue != []
    ensures Bookkept(Step(w, Release(id)))
    ensures w.key.queue[0].id !in w.outstanding
  {
    HeadLeaves(w.key.queue, w.timers, w.arrivals);
  }

  /** Whether or not the caller owns a grant. */
  lemma ReleaseKeepsBooks(w: World, id: nat)
    requires Bookkept(w) && w.key.limit.Finite?
    ensures var t := Step(w, Release(id));
            Bookkept(t) && Drift(t) == Drift(w) + DriftOf(w, Release(id))
  {
    if w.key.queue != [] {
      WaiterTakesOver(w, id);
    }
  }

  lemma TimerKeepsBooks(w: World, id: nat)
    requires Bookkept(w) && id in w.timers
    ensures Bookkept(Step(w, TimerFires(id)))
  {
    RemoveKeepsOrder(w.key.queue, id);
    assert Ids(Remove(w.key.queue, id)) == Ids(w.key.queue) - {id};
  }

  lemma StepKeepsBooks(w: World, e: Event)
    requires Bookkept(w) && w.key.limit.Finite? && (Enabled(w, e) || e.Release?)
    ensures Bookkept(Step(w, e)) && Drift(Step(w, e)) == Drift(w) + DriftOf(w, e)
  {
    match e
    case Acquire(priority, now, pressure) => AcquireKeepsBooks(w, priority, now, pressure);
    case Release(id) => ReleaseKeepsBooks(w, id);
    case TimerFires(id) => TimerKeepsBooks(w, id);
    case Report(success, now) =>
    case SetLimit(limit) =>
    case Reset =>
  }

  lemma PeakIsKept(w: World, e: Event)
    requires w.key.limit.Finite? && w.key.limit.n <= w.peak && w.key.count <= Max(0, w.peak)
    ensures var t := Step(w, e);
      && (t.key.limit.Finite? ==> t.key.limit.n <= t.peak)
      && t.key.count <= Max(0, t.peak)
  {
  }

  lemma StepKeepsInvariant(w: World, e: Event)
    requires Invariant(w) && w.key.limit.Finite? && Enabled(w, e)
    ensures Invariant(Step(w, e))
  {
    StepKeepsBooks(w, e);
    PeakIsKept(w, e);
    if e.Release? {
      assert w.outstanding != {};
    }
  }

  lemma {:induction false} RunKeepsInvariant(w: World, events: seq<Event>)
    requires Invariant(w) && Possible(w, events)
    ensures Invariant(After(w, events))
    decreases |events|
  {
    if events != [] {
      StepKeepsInvariant(w, events[0]);
      RunKeepsInvariant(Step(w, events[0]), events[1..]);
    }
  }

  // ---------------------------------------------------------------- the promises

  /** While the limit is finite, the active count is the number of grants not yet given back,
      and it never exceeds the largest limit that has been in force. */
  lemma SlotsAreAccountedFor(limit: int, events: seq<Event>)
    requires Possible(Start(limit), events)
    ensures var w := After(Start(limit), events);
            w.key.count == |w.outstanding| && w.key.count <= Max(0, w.peak)
  {
    RunKeepsInvariant(Start(limit), events);
  }

  /** The wait queue is always sorted by priority, with arrival order inside each class. */
  lemma QueueIsAlwaysSorted(limit: int, events: seq<Event>)
    requires Possible(Start(limit), events)
    ensures Ordered(After(Start(limit), events).key.queue)
  {
    RunKeepsInvariant(Start(limit), events);
  }

  /** A release with waiters grants the oldest waiter of the most urgent class. */
  lemma ReleaseGrantsMostUrgent(limit: int, events: seq<Event>, id: nat)
    requires Possible(Start(limit), events)
    requires var w := After(Start(limit), events);
             w.key.limit.Finite? && w.key.queue != [] && Enabled(w, Release(id))
    ensures var w := After(Start(limit), events);
            var t := Step(w, Release(id));
            exists v :: v in w.key.queue
              && t.outstanding == w.outstanding - {id} + {v.id}
              && t.settled == w.settled + [Settlement(v.id, Resolved)]
              && forall u :: u in w.key.queue && u != v ==> Precedes(v, u)
  {
    RunKeepsInvariant(Start(limit), events);
    var w := After(Start(limit), events);
    var v := w.key.queue[0];
    forall u | u in w.key.queue && u != v ensures Precedes(v, u) {
      var i :| 0 <= i < |w.key.queue| && w.key.queue[i] == u;
      assert Precedes(w.key.queue[0], w.key.queue[i]);
    }
    assert v in w.key.queue;
  }

  /** The positions at which acquisition `id` is settled. */
  ghost function Settlements(settled: seq<Settlement>, id: nat): set<int> {
    set i | 0 <= i < |settled| && settled[i].id == id
  }

  lemma SettledOrQueued(settled: seq<Settlement>, timers: set<nat>, arrivals: nat, id: nat)
    requires SettlementInvariant(settled, timers, arrivals) && id < arrivals
    ensures |Settlements(settled, id)| == if id in timers then 0 else 1
  {
    if id in timers {
      forall i | 0 <= i < |settled| ensures settled[i].id != id {
        assert settled[i] in settled;
      }
      assert Settlements(settled, id) == {};
    } else {
      assert id in Arrived(arrivals);
      assert id in SettledIds(settled);
      var x :| x in settled && x.id == id;
      var i :| 0 <= i < |settled| && settled[i] == x;
      assert Settlements(settled, id) == {i};
    }
  }

  /** Every acquisition is settled at most once, so it is never both granted and timed out;
      and as long as it is unsettled it is queued and its timer is set. */
  lemma SettledExactlyOnce(limit: int, events: seq<Event>, id: nat)
    requires Possible(Start(limit), events)
    requires id < After(Start(limit), events).arrivals
    ensures var w := After(Start(limit), events);
            && |Settlements(w.settled, id)| == (if id in w.timers then 0 else 1)
            && w.timers == Ids(w.key.queue)
  {
    RunKeepsInvariant(Start(limit), events);
    var w := After(Start(limit), events);
    SettledOrQueued(w.settled, w.timers, w.arrivals, id);
  }

  // ---------------------------------------------------------------- no idle slot beside a waiter

  /** No step of the run raises the limit. */
  ghost predicate NeverRaised(w: World, events: seq<Event>)
    decreases |events|
  {
    events == [] ||
    (var t := Step(w, events[0]);
     w.key.limit.Finite? && t.key.limit.Finite? && t.key.limit.n <= w.key.limit.n && NeverRaised(t, events[1..]))
  }

  /** As long as the limit is not raised, waiters mean that every slot is taken. */
  lemma {:induction false} WaitersMeanFull(w: World, events: seq<Event>)
    requires Possible(w, events) && NeverRaised(w, events)
    requires w.key.queue != [] ==> w.key.count >= w.key.limit.n
    ensures var t := After(w, events);
            t.key.limit.Finite? && (t.key.queue != [] ==> t.key.count >= t.key.limit.n)
    decreases |events|
  {
    if events != [] {
      WaitersMeanFull(Step(w, events[0]), events[1..]);
    }
  }

  ghost predicate ConstantLimit(w: World, events: seq<Event>)
    decreases |events|
  {
    events == [] ||
    (Step(w, events[0]).key.limit == w.key.limit && ConstantLimit(Step(w, events[0]), events[1..]))
  }

  lemma {:induction false} ConstantIsNotRaised(w: World, events: seq<Event>)
    requires w.key.limit.Finite? && w.key.limit.n == w.peak && ConstantLimit(w, events)
    ensures NeverRaised(w, events)
    ensures After(w, events).peak == w.peak && After(w, events).key.limit == w.key.limit
    decreases |events|
  {
    if events != [] {
      ConstantIsNotRaised(Step(w, events[0]), events[1..]);
    }
  }

  /** With a constant limit of at least 0, a non-empty queue implies that exactly all slots are taken. */
  lemma ConstantLimitFillsSlots(limit: nat, events: seq<Event>)
    requires Possible(Start(limit), events) && ConstantLimit(Start(limit), events)
    ensures var w := After(Start(limit), events);
            w.key.queue != [] ==> w.key.count == limit == |w.outstanding|
  {
    ConstantIsNotRaised(Start(limit), events);
    WaitersMeanFull(Start(limit), events);
    RunKeepsInvariant(Start(limit), events);
  }

  // ---------------------------------------------------------------- auto-scaling

  predicate InRange(limit: Limit) {
    limit.Finite? && 1 <= limit.n <= 50
  }

  /** In every run a limit between 1 and the maximum stays there unless it is set to another one;
      in particular scaling never makes it 0, which would mean unlimited. */
  lemma {:induction false} LimitStaysInRange(w: World, events: seq<Event>)
    requires InRange(w.key.limit) && forall e :: e in events && e.SetLimit? ==> InRange(e.limit)
    ensures InRange(After(w, events).key.limit)
    decreases |events|
  {
    if events != [] {
      var e := events[0];
      assert e in events;
      LimitStaysInRange(Step(w, e), events[1..]);
    }
  }

  /** A series of reports with the same outcome. */
  function AfterReports(k: KeyState, success: bool, times: seq<int>): KeyState {
    if times == [] then k
    else ReportOn(AfterReports(k, success, times[..|times| - 1]), success, times[|times| - 1])
  }

  /** Every third success in a row raises the limit by one, up to the maximum. */
  lemma {:induction false} SuccessesRaiseByThirds(k: KeyState, times: seq<int>)
    requires InRange(k.limit) && k.streak == 0
    ensures var t := AfterReports(k, true, times);
      && t.limit == Finite(if k.limit.n + |times| / 3 < 50 then k.limit.n + |times| / 3 else 50)
      && (t.limit.n < 50 ==> t.streak == |times| % 3)
  {
    if times != [] {
      SuccessesRaiseByThirds(k, times[..|times| - 1]);
    }
  }

  /** Every second failure in a row lowers the limit by one, down to 1. */
  lemma {:induction false} FailuresCutByHalves(k: KeyState, times: seq<int>)
    requires InRange(k.limit) && k.failures == 0
    ensures var t := AfterReports(k, false, times);
      && t.limit == Finite(if k.limit.n - |times| / 2 > 1 then k.limit.n - |times| / 2 else 1)
      && (t.limit.n > 1 ==> t.failures == |times| % 2)
  {
    if times != [] {
      FailuresCutByHalves(k, times[..|times| - 1]);
    }
  }

  /** The one report that makes a finite limit unlimited raises minus one to 0. */
  lemma ScalingUnlimitsOnlyMinusOne(k: KeyState, success: bool, now: int)
    requires k.limit.Finite?
    ensures ReportOn(k, success, now).limit.Infinity? <==> success && k.streak >= 2 && k.limit.n == -1
  {
  }

  /** A limit of at least 0 stays finite and at least 0 as long as it is not set. */
  lemma {:induction false} NonNegativeStaysFinite(w: World, events: seq<Event>)
    requires w.key.limit.Finite? && w.key.limit.n >= 0 && forall e :: e in events ==> !e.SetLimit?
    ensures After(w, events).key.limit.Finite? && After(w, events).key.limit.n >= 0
    decreases |events|
  {
    if events != [] {
      assert events[0] in events;
      NonNegativeStaysFinite(Step(w, events[0]), events[1..]);
    }
  }

  /** A series of successes. */
  function Successes(n: nat): seq<Event> {
    if n == 0 then [] else [Report(true, 0)] + Successes(n - 1)
  }

  /** Every three successes in a row raise a negative limit by one, until it reaches 0. */
  lemma {:induction false} NegativeClimbs(w: World) returns (n: nat)
    requires w.key.limit.Finite? && w.key.limit.n < 0
    ensures After(w, Successes(n)).key.limit.Infinity?
    ensures n == 3 * -w.key.limit.n - (if w.key.streak < 2 then w.key.streak else 2)
    decreases -w.key.limit.n, if w.key.streak >= 3 then 0 else 3 - w.key.streak
  {
    var t := Step(w, Report(true, 0));
    if t.key.limit.Infinity? {
      n := 1;
      assert Successes(1)[1..] == [];
    } else {
      n := NegativeClimbs(t);
      n := n + 1;
      assert Successes(n)[1..] == Successes(n - 1);
    }
  }

  ghost predicate NothingSet(events: seq<Event>) {
    forall e :: e in events ==> !e.SetLimit?
  }

  lemma {:induction false} SuccessesSetNothing(n: nat)
    ensures NothingSet(Successes(n))
  {
    if n > 0 {
      SuccessesSetNothing(n - 1);
    }
  }

  /** Exactly which finite limits scaling can make unlimited: the negative ones, however far below 0. */
  lemma BecomesUnlimitedExactly(w: World)
    requires w.key.limit.Finite?
    ensures (exists events :: NothingSet(events) && After(w, events).key.limit.Infinity?) <==> w.key.limit.n < 0
  {
    if w.key.limit.n < 0 {
      var n := NegativeClimbs(w);
      SuccessesSetNothing(n);
    } else {
      forall events | NothingSet(events) ensures !After(w, events).key.limit.Infinity? {
        NonNegativeStaysFinite(w, events);
      }
    }
  }
}
