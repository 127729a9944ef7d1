/** The work-stealing worker pool of src/core/queue/worker-pool.ts.

    JavaScript runs each stretch of `workerLoop` between two `await`s without interruption, so
    every such stretch is one method of the class and one action of the transition system below.
    Worker `i` stands for the identifier `worker-i`; any other identifier is out of range. */
module WorkerPool {
  import opened Prelude
  import opened WorkStealingDeque

  /** Where one activation of `workerLoop` stands. */
  datatype Phase<T> =
    | AtHead                                        // about to test the loop condition
    | Executing(item: WorkItem<T>, stolen: bool)    // awaiting the executor
    | Waiting                                       // awaiting `adaptiveWait`
    | Exited

  // ---------------------------------------------------------------- choosing a worker

  /** The worker at offset `i` of the wrap-around scan from `start`. */
  function Scan(n: nat, start: nat, i: nat): (v: nat)
    requires 0 < n
    ensures v < n
  {
    (start + i) % n
  }

  /** From any start index, the wrap-around scan visits every worker exactly once. */
  lemma ScanVisitsEachWorkerOnce(n: nat, start: nat, v: nat) returns (i: nat)
    requires start < n && v < n
    ensures i < n && Scan(n, start, i) == v
    ensures forall j :: 0 <= j < n && Scan(n, start, j) == v ==> j == i
  {
    i := ScanReaches(n, start, v);
    forall j | 0 <= j < n && j != i ensures Scan(n, start, j) != v {
      ScanIsInjective(n, start, i, j);
    }
  }

  lemma ScanReaches(n: nat, start: nat, v: nat) returns (i: nat)
    requires start < n && v < n
    ensures i < n && Scan(n, start, i) == v
  {
    Wraps(v, n);
    if start <= v {
      i := v - start;
      assert start + i == v;
    } else {
      i := v + n - start;
      assert start + i == v + n;
    }
  }

  lemma ScanIsInjective(n: nat, start: nat, i: nat, j: nat)
    requires i < n && j < n && i != j
    ensures Scan(n, start, i) != Scan(n, start, j)
  {
    if i < j {
      WindowSlotsAreDistinct(start + i, start + j, n);
    } else {
      WindowSlotsAreDistinct(start + j, start + i, n);
    }
  }

  lemma Wraps(v: nat, n: nat)
    requires v < n
    ensures v % n == v && (v + n) % n == v
  {
  }

  /** `trySteal`: the first worker in scan order, from offset `i` on, that the thief can steal from. */
  function Victim<T>(queues: seq<seq<T>>, thief: nat, start: nat, i: nat): (v: Option<nat>)
    requires i <= |queues|
    ensures v.Some? ==> v.value < |queues| && !Idle(queues, thief, v.value)
    decreases |queues| - i
  {
    if i == |queues| then None
    else
      var v := Scan(|queues|, start, i);
      if v != thief && queues[v] != [] then Some(v) else Victim(queues, thief, start, i + 1)
  }

  /** The victim is the nearest worker in scan order that has work. */
  lemma {:induction false} VictimIsNearest<T>(queues: seq<seq<T>>, thief: nat, start: nat, i: nat) returns (at: nat)
    requires i <= |queues|
    ensures i <= at <= |queues|
    ensures forall k :: i <= k < at ==> Idle(queues, thief, Scan(|queues|, start, k))
    ensures Victim(queues, thief, start, i)
         == if at == |queues| then None else Some(Scan(|queues|, start, at))
    decreases |queues| - i
  {
    at := i;
    if i < |queues| {
      var v := Scan(|queues|, start, i);
      if v == thief || queues[v] == [] {
        at := VictimIsNearest(queues, thief, start, i + 1);
      }
    }
  }

  /** Nothing that `thief` could steal is at `v`. */
  ghost predicate Idle<T>(queues: seq<seq<T>>, thief: nat, v: nat) {
    v == thief || v >= |queues| || queues[v] == []
  }

  /** Stealing comes back empty-handed exactly when every other deque is empty. */
  lemma NoVictimMeansNoWork<T>(queues: seq<seq<T>>, thief: nat, start: nat)
    requires start < |queues|
    ensures Victim(queues, thief, start, 0) == None
       <==> forall v :: 0 <= v < |queues| && v != thief ==> queues[v] == []
  {
    var at := VictimIsNearest(queues, thief, start, 0);
    if at == |queues| {
      forall v | 0 <= v < |queues| && v != thief ensures queues[v] == [] {
        var i := ScanVisitsEachWorkerOnce(|queues|, start, v);
        assert Idle(queues, thief, Scan(|queues|, start, i));
      }
    }
  }

  /** `getLeastLoadedWorker` over the first `n` workers: the first shortest queue. */
  function LeastLoaded<T>(queues: seq<seq<T>>, n: nat): (w: nat)
    requires 0 < n <= |queues|
    ensures w < n
    ensures forall v :: 0 <= v < n ==> |queues[w]| <= |queues[v]|
    ensures forall v :: 0 <= v < w ==> |queues[w]| < |queues[v]|
  {
    if n == 1 then 0
    else
      var w := LeastLoaded(queues, n - 1);
      if |queues[n - 1]| < |queues[w]| then n - 1 else w
  }

  /** The worker that `submit` pushes to; none when the identifier is unknown. */
  function Target<T>(queues: seq<seq<T>>, target: Option<int>): (w: Option<nat>)
    ensures w.Some? ==> w.value < |queues|
  {
    match target
    case Some(t) => if 0 <= t < |queues| then Some(t) else None
    case None => if queues == [] then None else Some(LeastLoaded(queues, |queues|))
  }

  function Submitted<T>(queues: seq<seq<T>>, w: Option<nat>, item: T): seq<seq<T>>
    requires w.Some? ==> w.value < |queues|
  {
    if w.None? then queues else queues[w.value := queues[w.value] + [item]]
  }

  /** One pass through the head of the loop, up to the next `await`. */
  function Head<T>(queues: seq<seq<WorkItem<T>>>, go: bool, w: nat, start: nat)
      : (Phase<T>, seq<seq<WorkItem<T>>>)
    requires w < |queues|
  {
    if !go then (Exited, queues)
    else if queues[w] != [] then
      var last := |queues[w]| - 1;
      (Executing(queues[w][last], false), queues[w := queues[w][..last]])
    else
      match Victim(queues, w, start, 0)
      case None => (Waiting, queues)
      case Some(v) => (Executing(queues[v][0], true), queues[v := queues[v][1..]])
  }

  // ---------------------------------------------------------------- the pool object

  const MIN_WAIT_MS := 1.0
  const MAX_WAIT_MS := 100.0

  /** Two deques that share no storage. */
  ghost predicate Apart<T>(d: WorkStealingDeque<T>, e: WorkStealingDeque<T>)
    reads d, e
  {
    d != e && d.buffer != e.buffer && d.buffer.items != e.buffer.items
  }

  /** No two of the deques share storage. */
  ghost predicate AllApart<T>(ds: seq<WorkStealingDeque<T>>)
    reads ds
  {
    forall i, j :: 0 <= i < |ds| && 0 <= j < |ds| && i != j ==> Apart(ds[i], ds[j])
  }

  lemma OneMoreApart<T>(ds: seq<WorkStealingDeque<T>>, d: WorkStealingDeque<T>)
    requires AllApart(ds) && forall i :: 0 <= i < |ds| ==> Apart(ds[i], d)
    ensures AllApart(ds + [d])
  {
  }

  class WorkerPool<T> {
    const deques: seq<WorkStealingDeque<T>>
    var running: bool
    var workerLoops: seq<bool>
    var currentWaitMs: real
    var totalExecuted: nat
    var totalStolen: nat

    ghost function Storage(): set<object>
      reads deques
    {
      var owned: set<object> := (set d | d in deques :: d as object)
                              + (set d | d in deques :: d.buffer as object)
                              + (set d | d in deques :: d.buffer.items as object);
      owned
    }

    ghost function Repr(): set<object>
      reads deques
    {
      {this} + Storage()
    }

    ghost predicate DequesValid()
      reads deques, Storage()
    {
      && (forall d :: d in deques ==> d.Valid())
      && AllApart(deques)
    }

    ghost predicate Valid()
      reads this, deques, Storage()
    {
      |workerLoops| == |deques| && MIN_WAIT_MS <= currentWaitMs <= MAX_WAIT_MS && DequesValid()
    }

    ghost function Queues(): (queues: seq<seq<WorkItem<T>>>)
      reads deques
      ensures |queues| == |deques|
      ensures forall i :: 0 <= i < |deques| ==> queues[i] == deques[i].contents
    {
      seq(|deques|, i requires 0 <= i < |deques| reads deques => deques[i].contents)
    }

    /** Every deque still uses its old buffer or a newly allocated one. */
    twostate predicate OnlyFreshStorage()
      reads deques
    {
      forall d :: d in deques ==> d.buffer == old(d.buffer) || (fresh(d.buffer) && fresh(d.buffer.items))
    }

    lemma OwnsDeque(w: nat)
      requires w < |deques|
      ensures deques[w].Repr() <= Repr()
    {
      assert deques[w] in deques;
    }

    constructor (workerCount: nat)
      ensures Valid() && fresh(Repr())
      ensures !running && totalExecuted == totalStolen == 0 && currentWaitMs == 10.0
      ensures Queues() == seq(workerCount, _ => []) && workerLoops == seq(workerCount, _ => false)
    {
      var ds: seq<WorkStealingDeque<T>> := [];
      for i := 0 to workerCount
        invariant |ds| == i
        invariant forall k :: 0 <= k < i ==> fresh(ds[k].Repr()) && ds[k].Valid() && ds[k].contents == []
        invariant AllApart(ds)
      {
        var d := new WorkStealingDeque<T>(32);
        OneMoreApart(ds, d);
        ds := ds + [d];
      }
      deques := ds;
      running, workerLoops, currentWaitMs := false, seq(workerCount, _ => false), 10.0;
      totalExecuted, totalStolen := 0, 0;
    }

    method GetLeastLoadedWorker() returns (w: Option<nat>)
      requires Valid()
      ensures w == Target(Queues(), None)
    {
      if |deques| == 0 {
        return None;
      }
      var least, minLoad := 0, deques[0].Size();
      for i := 1 to |deques|
        invariant least < i && least == LeastLoaded(Queues(), i)
        invariant minLoad == |Queues()[least]|
      {
        var load := deques[i].Size();
        if load < minLoad {
          least, minLoad := i, load;
        }
      }
      w := Some(least);
    }

    method ChooseWorker(target: Option<int>) returns (w: Option<nat>)
      requires Valid()
      ensures w == Target(Queues(), target)
    {
      if target.None? {
        w := GetLeastLoadedWorker();
      } else {
        w := if 0 <= target.value < |deques| then Some(target.value) else None;
      }
    }

    method PushTo(w: nat, item: WorkItem<T>)
      requires Valid() && w < |deques|
      modifies deques[w].Repr()
      ensures Valid() && unchanged(this)
      ensures OnlyFreshStorage()
      ensures Queues() == old(Queues())[w := old(Queues())[w] + [item]]
    {
      deques[w].Push(item);
      assert forall d :: d in deques && d != deques[w] ==> d.buffer == old(d.buffer) && d.contents == old(d.contents);
    }

    /** Returns false where the original throws because the worker is unknown. */
    method Submit(task: T, priority: TaskPriority, target: Option<int>, now: int) returns (accepted: bool)
      requires Valid()
      modifies Repr()
      ensures Valid() && unchanged(this)
      ensures OnlyFreshStorage()
      ensures accepted == Target(old(Queues()), target).Some?
      ensures Queues() == Submitted(old(Queues()), Target(old(Queues()), target), WorkItem(task, priority, now))
    {
      var w := ChooseWorker(target);
      accepted := w.Some?;
      if accepted {
        OwnsDeque(w.value);
        PushTo(w.value, WorkItem(task, priority, now));
      }
    }

    method StealFrom(v: nat) returns (stolen: Option<WorkItem<T>>)
      requires Valid() && v < |deques|
      modifies deques[v]
      ensures Valid() && Repr() == old(Repr())
      ensures old(Queues())[v] == [] ==> stolen == None && Queues() == old(Queues())
      ensures old(Queues())[v] != [] ==>
                stolen == Some(old(Queues())[v][0]) && Queues() == old(Queues())[v := old(Queues())[v][1..]]
    {
      stolen := deques[v].Steal();
      assert forall i :: 0 <= i < |deques| ==> deques[i].buffer == old(deques[i].buffer);
    }

    method PopFrom(w: nat) returns (popped: Option<WorkItem<T>>)
      requires Valid() && w < |deques|
      modifies deques[w]
      ensures Valid() && Repr() == old(Repr())
      ensures old(Queues())[w] == [] ==> popped == None && Queues() == old(Queues())
      ensures old(Queues())[w] != [] ==>
                var last := |old(Queues())[w]| - 1;
                popped == Some(old(Queues())[w][last]) && Queues() == old(Queues())[w := old(Queues())[w][..last]]
    {
      popped := deques[w].Pop();
      assert forall i :: 0 <= i < |deques| ==> deques[i].buffer == old(deques[i].buffer);
    }

    method TrySteal(thief: nat, start: nat) returns (stolen: Option<WorkItem<T>>)
      requires Valid() && start < |deques|
      modifies deques
      ensures Valid() && Repr() == old(Repr())
      ensures match Victim(old(Queues()), thief, start, 0)
              case None => stolen == None && Queues() == old(Queues())
              case Some(v) =>
                && stolen == Some(old(Queues())[v][0])
                && Queues() == old(Queues())[v := old(Queues())[v][1..]]
    {
      var n := |deques|;
      for i := 0 to n
        invariant Valid() && Repr() == old(Repr()) && Queues() == old(Queues())
        invariant Victim(old(Queues()), thief, start, 0) == Victim(old(Queues()), thief, start, i)
      {
        var victim := Scan(n, start, i);
        if victim == thief {
          continue;
        }
        stolen := StealFrom(victim);
        if stolen.Some? {
          return;
        }
      }
      stolen := None;
    }

    /** From the loop condition to the next `await`. */
    method LoopHead(w: nat, start: nat) returns (next: Phase<T>)
      requires Valid() && w < |deques| && start < |deques|
      modifies deques
      ensures Valid() && Repr() == old(Repr())
      ensures (next, Queues()) == Head(old(Queues()), running && workerLoops[w], w, start)
    {
      if !(running && workerLoops[w]) {
        return Exited;
      }
      var item := PopFrom(w);
      if item.Some? {
        return Executing(item.value, false);
      }
      item := TrySteal(w, start);
      if item.Some? {
        return Executing(item.value, true);
      }
      next := Waiting;
    }

    /** The executor's promise resolved. */
    method ExecutorSucceeded(stolen: bool)
      requires Valid()
      modifies this
      ensures Valid() && Repr() == old(Repr()) && Queues() == old(Queues())
      ensures running == old(running) && workerLoops == old(workerLoops)
      ensures totalExecuted == old(totalExecuted) + 1
      ensures totalStolen == old(totalStolen) + (if stolen then 1 else 0)
      ensures currentWaitMs == 1.0
    {
      totalExecuted := totalExecuted + 1;
      if stolen {
        totalStolen := totalStolen + 1;
      }
      currentWaitMs := MIN_WAIT_MS;
    }

    /** The executor's promise rejected: the error is logged and the item is dropped. */
    method ExecutorFailed()
      requires Valid()
      modifies this`currentWaitMs
      ensures Valid() && Repr() == old(Repr()) && Queues() == old(Queues())
      ensures currentWaitMs == 1.0
    {
      currentWaitMs := MIN_WAIT_MS;
    }

    /** Exponential back-off after an idle wait: half as long again, up to 100 ms. */
    method WaitElapsed()
      requires Valid()
      modifies this`currentWaitMs
      ensures Valid() && Repr() == old(Repr()) && Queues() == old(Queues())
      ensures currentWaitMs == if old(currentWaitMs) * 1.5 <= 100.0 then old(currentWaitMs) * 1.5 else 100.0
      ensures old(currentWaitMs) <= currentWaitMs
    {
      currentWaitMs := if currentWaitMs * 1.5 < MAX_WAIT_MS then currentWaitMs * 1.5 else MAX_WAIT_MS;
    }

    /** True when new loop activations begin; their first step marks the worker's loop as live. */
    method Start() returns (started: bool)
      requires Valid()
      modifies this`running, this`workerLoops
      ensures Valid() && Repr() == old(Repr()) && Queues() == old(Queues())
      ensures started == !old(running) && running
      ensures started ==> forall w :: 0 <= w < |deques| ==> workerLoops[w]
      ensures !started ==> workerLoops == old(workerLoops)
    {
      if running {
        return false;
      }
      running, workerLoops := true, seq(|deques|, _ => true);
      started := true;
    }

    method Stop()
      requires Valid()
      modifies this`running, this`workerLoops
      ensures Valid() && Repr() == old(Repr()) && Queues() == old(Queues())
      ensures !running && forall w :: 0 <= w < |deques| ==> !workerLoops[w]
    {
      running := false;
      for i := 0 to |deques|
        invariant !running && |workerLoops| == |deques|
        invariant forall k :: 0 <= k < i ==> !workerLoops[k]
        invariant Valid() && Repr() == old(Repr()) && Queues() == old(Queues())
      {
        workerLoops := workerLoops[i := false];
      }
    }

    method GetQueuedCount() returns (total: nat)
      requires Valid()
      ensures total == |QueuedItems(Queues())|
    {
      total := 0;
      for i := 0 to |deques|
        invariant total + |QueuedItems(Queues()[i..])| == |QueuedItems(Queues())|
      {
        assert Queues()[i..][0] == Queues()[i] && Queues()[i..][1..] == Queues()[i + 1..];
        total := total + deques[i].Size();
      }
    }
  }

  function QueuedItems<T>(queues: seq<seq<T>>): multiset<T> {
    if queues == [] then multiset{} else multiset(queues[0]) + QueuedItems(queues[1..])
  }
}
