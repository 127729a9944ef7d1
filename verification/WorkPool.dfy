/** The promise pools of src/core/queue/work-pool.ts. Between two `await`s a worker is not interrupted,
    so a run is a sequence of such stretches in an order that the event loop chooses: a schedule, which names
    the worker of each stretch. What is proved holds for every schedule. */
module WorkPool {
  import opened Prelude

  /** A worker is about to pop, awaits `fn` on an index, or has returned. */
  datatype Worker = Popping | Awaiting(index: nat) | Returned

  predicate Active(w: Worker) {
    !w.Returned?
  }

  predicate AnyActive(workers: seq<Worker>) {
    exists k :: 0 <= k < |workers| && Active(workers[k])
  }

  function Min(a: int, b: int): int {
    if a < b then a else b
  }

  /** `Array.from({ length: Math.min(concurrency, items.length) }, ...)` */
  function WorkerCount(concurrency: int, n: nat): nat {
    if concurrency < 0 then 0 else Min(concurrency, n)
  }

  /** The results of `fn` in the order of the items. */
  function InOrder<T, R>(items: seq<T>, fn: (T, nat) -> R): (r: seq<Option<R>>)
    ensures |r| == |items| && forall i :: 0 <= i < |items| ==> r[i] == Some(fn(items[i], i))
  {
    seq(|items|, i requires 0 <= i < |items| => Some(fn(items[i], i)))
  }

  /** `new Array(n)` */
  function Holes<R>(n: nat): (r: seq<Option<R>>)
    ensures |r| == n && forall i :: 0 <= i < n ==> r[i] == None
  {
    seq(n, _ => None)
  }

  // ---------------------------------------------------------------- one worker's stretches

  /** `pending.pop()`: the item to work on, or the end of the worker. `pending` lists indices. */
  function AfterPop(pending: nat): Worker {
    if pending == 0 then Returned else Awaiting(pending - 1)
  }

  /** The steps that a run still takes: two for a pending item, then one more for an awaited one,
      and one for every worker to find the list empty. */
  function StepsLeft(pending: nat, workers: seq<Worker>): nat {
    if workers == [] then 2 * pending
    else StepsLeft(pending, workers[1..]) + Weight(workers[0])
  }

  function Weight(w: Worker): nat {
    match w
    case Popping => 1
    case Awaiting(_) => 2
    case Returned => 0
  }

  lemma {:induction false} StepsLeftUpdate(pending: nat, left: nat, workers: seq<Worker>, k: nat, w: Worker)
    requires k < |workers|
    ensures StepsLeft(left, workers[k := w]) + Weight(workers[k]) + 2 * pending
         == StepsLeft(pending, workers) + Weight(w) + 2 * left
  {
    if k == 0 {
      assert workers[k := w][1..] == workers[1..];
      DependsOnPending(pending, left, workers[1..]);
    } else {
      assert workers[k := w][1..] == workers[1..][k - 1 := w];
      StepsLeftUpdate(pending, left, workers[1..], k - 1, w);
    }
  }

  lemma {:induction false} DependsOnPending(pending: nat, left: nat, workers: seq<Worker>)
    ensures StepsLeft(left, workers) + 2 * pending == StepsLeft(pending, workers) + 2 * left
  {
    if workers != [] {
      DependsOnPending(pending, left, workers[1..]);
    }
  }

  lemma {:induction false} InitialSteps(pending: nat, count: nat)
    ensures StepsLeft(pending, seq(count, _ => Popping)) == 2 * pending + count
  {
    if count > 0 {
      InitialSteps(pending, count - 1);
      assert seq(count, _ => Popping)[1..] == seq(count - 1, _ => Popping);
    }
  }

  lemma {:induction false} ActiveMeansSteps(pending: nat, workers: seq<Worker>, k: nat)
    requires k < |workers| && Active(workers[k])
    ensures StepsLeft(pending, workers) > 0
  {
    if k > 0 {
      ActiveMeansSteps(pending, workers[1..], k - 1);
    }
  }

  // ---------------------------------------------------------------- the invariant of every interleaving

  /** The indices still pending, and those that some worker awaits. */
  ghost predicate InFlight(workers: seq<Worker>, i: nat) {
    exists k :: 0 <= k < |workers| && workers[k] == Awaiting(i)
  }

  /** Every index below `pending` is untouched; every other index has been handed out once, and is
      either awaited by exactly one worker or has its result in place. */
  ghost predicate Consistent<T, R>(items: seq<T>, fn: (T, nat) -> R, pending: nat, workers: seq<Worker>,
                                   results: seq<Option<R>>, calls: seq<nat>)
  {
    && pending <= |items| == |results|
    && (forall k :: 0 <= k < |workers| && workers[k].Awaiting? ==> pending <= workers[k].index < |items|)
    && (forall j, k :: 0 <= j < k < |workers| && workers[j].Awaiting? ==> workers[j] != workers[k])
    && (forall i :: 0 <= i < pending ==> results[i] == None)
    && (forall i :: pending <= i < |items| ==>
          results[i] == if InFlight(workers, i) then None else Some(fn(items[i], i)))
    && calls == CallOrder(|items|, pending)
  }

  /** Indices are handed out from the last to the first. */
  function CallOrder(n: nat, pending: nat): (calls: seq<nat>)
    requires pending <= n
    ensures |calls| == n - pending && forall i :: 0 <= i < |calls| ==> calls[i] == n - 1 - i
  {
    seq(n - pending, i requires 0 <= i < n - pending => n - 1 - i)
  }

  lemma PopIsConsistent<T, R>(items: seq<T>, fn: (T, nat) -> R, pending: nat, workers: seq<Worker>,
                              results: seq<Option<R>>, calls: seq<nat>, k: nat)
    requires Consistent(items, fn, pending, workers, results, calls)
    requires k < |workers| && workers[k] == Popping
    ensures var left := if pending > 0 then pending - 1 else 0;
            var after := workers[k := AfterPop(pending)];
            && Consistent(items, fn, left, after, results, calls + (if pending > 0 then [left] else []))
            && StepsLeft(left, after) + 1 == StepsLeft(pending, workers)
            && (pending > 0 ==> AnyActive(after))
  {
    StepsLeftUpdate(pending, if pending > 0 then pending - 1 else 0, workers, k, AfterPop(pending));
    var after := workers[k := AfterPop(pending)];
    forall i | pending <= i < |items| ensures InFlight(after, i) == InFlight(workers, i) {
      if InFlight(workers, i) {
        var j :| 0 <= j < |workers| && workers[j] == Awaiting(i);
        assert after[j] == Awaiting(i);
      }
    }
    if pending > 0 {
      assert after[k] == Awaiting(pending - 1) && Active(after[k]);
      assert calls + [pending - 1] == CallOrder(|items|, pending - 1);
    } else {
      assert calls + [] == calls;
    }
  }

  lemma ResolveIsConsistent<T, R>(items: seq<T>, fn: (T, nat) -> R, pending: nat, workers: seq<Worker>,
                                  results: seq<Option<R>>, calls: seq<nat>, k: nat)
    requires Consistent(items, fn, pending, workers, results, calls)
    requires k < |workers| && workers[k].Awaiting?
    ensures var i := workers[k].index;
            && Consistent(items, fn, pending, workers[k := Popping], results[i := Some(fn(items[i], i))], calls)
            && StepsLeft(pending, workers[k := Popping]) + 1 == StepsLeft(pending, workers)
            && AnyActive(workers[k := Popping])
  {
    StepsLeftUpdate(pending, pending, workers, k, Popping);
    assert Active(workers[k := Popping][k]);
    var index := workers[k].index;
    var after := workers[k := Popping];
    forall i | pending <= i < |items|
      ensures InFlight(after, i) == (InFlight(workers, i) && i != index)
    {
      if InFlight(workers, i) && i != index {
        var j :| 0 <= j < |workers| && workers[j] == Awaiting(i);
        assert after[j] == Awaiting(i);
      }
      if InFlight(after, i) {
        var j :| 0 <= j < |after| && after[j] == Awaiting(i);
        assert workers[j] == Awaiting(i) && j != k;
      }
    }
  }

  // ---------------------------------------------------------------- the pools

  ghost function IndicesInFlight(workers: seq<Worker>): set<nat> {
    set k | 0 <= k < |workers| && workers[k].Awaiting? :: workers[k].index
  }

  /** Every worker awaits at most one index, so at most as many are in flight as there are workers. */
  lemma {:induction false} InFlightIsBounded(workers: seq<Worker>, inFlight: set<nat>)
    requires forall i :: i in inFlight ==> InFlight(workers, i)
    ensures |inFlight| <= |workers|
  {
    if workers == [] {
      assert inFlight == {};
    } else {
      var front, last := workers[..|workers| - 1], workers[|workers| - 1];
      var rest := if last.Awaiting? then inFlight - {last.index} else inFlight;
      forall i | i in rest ensures InFlight(front, i) {
        var k :| 0 <= k < |workers| && workers[k] == Awaiting(i);
        assert front[k] == Awaiting(i);
      }
      InFlightIsBounded(front, rest);
      assert last.Awaiting? ==> |inFlight| <= |rest| + 1 by {
        assert last.Awaiting? ==> inFlight <= rest + {last.index};
        if last.Awaiting? && last.index in inFlight { assert inFlight == rest + {last.index}; }
      }
    }
  }

  lemma WorkersBoundTheFlight(workers: seq<Worker>)
    ensures |IndicesInFlight(workers)| <= |workers|
  {
    InFlightIsBounded(workers, IndicesInFlight(workers));
  }

  /** The pool at one moment; `calls` are the indices that `fn` has been called with so far. */
  datatype Pool<R> = Pool(pending: nat, workers: seq<Worker>, results: seq<Option<R>>, calls: seq<nat>)

  ghost predicate Good<T, R>(items: seq<T>, fn: (T, nat) -> R, p: Pool<R>) {
    Consistent(items, fn, p.pending, p.workers, p.results, p.calls)
  }

  ghost function Initial<T, R>(concurrency: int, items: seq<T>, fn: (T, nat) -> R): (p: Pool<R>)
    ensures Good(items, fn, p)
  {
    Pool(|items|, seq(WorkerCount(concurrency, |items|), _ => Popping), Holes(|items|), [])
  }

  /** The next stretch of worker `k`: it pops, or its call of `fn` resolves. */
  ghost function Next<T, R>(items: seq<T>, fn: (T, nat) -> R, p: Pool<R>, k: nat): Pool<R>
    requires Good(items, fn, p) && k < |p.workers| && Active(p.workers[k])
  {
    match p.workers[k]
    case Popping =>
      var after := p.workers[k := AfterPop(p.pending)];
      if p.pending == 0 then p.(workers := after)
      else Pool(p.pending - 1, after, p.results, p.calls + [p.pending - 1])
    case Awaiting(i) =>
      p.(workers := p.workers[k := Popping], results := p.results[i := Some(fn(items[i], i))])
  }

  lemma NextIsGood<T, R>(items: seq<T>, fn: (T, nat) -> R, p: Pool<R>, k: nat)
    requires Good(items, fn, p) && k < |p.workers| && Active(p.workers[k])
    ensures var q := Next(items, fn, p, k);
            && Good(items, fn, q) && |q.workers| == |p.workers|
            && StepsLeft(q.pending, q.workers) + 1 == StepsLeft(p.pending, p.workers)
            && (q.pending > 0 ==> AnyActive(q.workers))
  {
    if p.workers[k].Popping? {
      PopIsConsistent(items, fn, p.pending, p.workers, p.results, p.calls, k);
      assert p.calls + [] == p.calls;
    } else {
      ResolveIsConsistent(items, fn, p.pending, p.workers, p.results, p.calls, k);
    }
  }

  ghost predicate Possible<T, R>(items: seq<T>, fn: (T, nat) -> R, p: Pool<R>, schedule: seq<nat>)
    requires Good(items, fn, p)
    decreases |schedule|
  {
    schedule == [] ||
    (schedule[0] < |p.workers| && Active(p.workers[schedule[0]]) &&
     (NextIsGood(items, fn, p, schedule[0]); Possible(items, fn, Next(items, fn, p, schedule[0]), schedule[1..])))
  }

  ghost function After<T, R>(items: seq<T>, fn: (T, nat) -> R, p: Pool<R>, schedule: seq<nat>): (q: Pool<R>)
    requires Good(items, fn, p) && Possible(items, fn, p, schedule)
    ensures Good(items, fn, q)
    decreases |schedule|
  {
    if schedule == [] then p
    else NextIsGood(items, fn, p, schedule[0]); After(items, fn, Next(items, fn, p, schedule[0]), schedule[1..])
  }

  lemma InitialStepsLeft<T, R>(items: seq<T>, fn: (T, nat) -> R, concurrency: int)
    ensures var p := Initial(concurrency, items, fn);
            && |p.workers| == WorkerCount(concurrency, |items|)
            && StepsLeft(p.pending, p.workers) == 2 * |items| + WorkerCount(concurrency, |items|)
            && (1 <= concurrency && p.pending > 0 ==> AnyActive(p.workers))
  {
    var p := Initial(concurrency, items, fn);
    InitialSteps(|items|, |p.workers|);
    assert |p.workers| > 0 ==> Active(p.workers[0]);
  }

  /** Every stretch uses up one of the steps left, and no worker returns while an item is pending. */
  lemma {:induction false} ScheduleCounts<T, R>(items: seq<T>, fn: (T, nat) -> R, p: Pool<R>, schedule: seq<nat>)
    requires Good(items, fn, p) && Possible(items, fn, p, schedule)
    ensures var q := After(items, fn, p, schedule);
            && |q.workers| == |p.workers|
            && |schedule| + StepsLeft(q.pending, q.workers) == StepsLeft(p.pending, p.workers)
            && (schedule == [] ==> q == p)
            && (schedule != [] && q.pending > 0 ==> AnyActive(q.workers))
    decreases |schedule|
  {
    if schedule != [] {
      NextIsGood(items, fn, p, schedule[0]);
      ScheduleCounts(items, fn, Next(items, fn, p, schedule[0]), schedule[1..]);
    }
  }

  /** At every moment of every schedule at most `min(concurrency, n)` calls are in flight, the calls so far
      went from the last index down, each index once, and the stretches taken and left are
      `2 * n + min(concurrency, n)`. */
  lemma EveryMoment<T, R>(concurrency: int, items: seq<T>, fn: (T, nat) -> R, schedule: seq<nat>)
    requires Possible(items, fn, Initial(concurrency, items, fn), schedule)
    ensures var p := After(items, fn, Initial(concurrency, items, fn), schedule);
            && |IndicesInFlight(p.workers)| <= Max(0, Min(concurrency, |items|))
            && p.pending <= |items| && p.calls == CallOrder(|items|, p.pending)
            && |schedule| + StepsLeft(p.pending, p.workers) == 2 * |items| + Max(0, Min(concurrency, |items|))
  {
    WorkersAreCounted(concurrency, items, fn, schedule);
    WorkersBoundTheFlight(After(items, fn, Initial(concurrency, items, fn), schedule).workers);
  }

  lemma WorkersAreCounted<T, R>(concurrency: int, items: seq<T>, fn: (T, nat) -> R, schedule: seq<nat>)
    requires Possible(items, fn, Initial(concurrency, items, fn), schedule)
    ensures var p := After(items, fn, Initial(concurrency, items, fn), schedule);
            && |p.workers| == Max(0, Min(concurrency, |items|))
            && |schedule| + StepsLeft(p.pending, p.workers) == 2 * |items| + Max(0, Min(concurrency, |items|))
  {
    InitialStepsLeft(items, fn, concurrency);
    ScheduleCounts(items, fn, Initial(concurrency, items, fn), schedule);
  }

  lemma FinishedInOrder<T, R>(items: seq<T>, fn: (T, nat) -> R, p: Pool<R>)
    requires Good(items, fn, p) && !AnyActive(p.workers) && p.pending == 0
    ensures p.results == InOrder(items, fn) && p.calls == CallOrder(|items|, 0) && StepsLeft(p.pending, p.workers) == 0
  {
    AllReturned(p.pending, p.workers);
    assert forall i :: InFlight(p.workers, i) ==> AnyActive(p.workers);
  }

  /** Whatever the schedule, once every worker has returned the results are the in-order map, `fn` has been
      called once for each index, and `2 * n + min(concurrency, n)` stretches have passed. Without a worker
      nothing happens, and the result is all holes. */
  lemma EveryScheduleEndsInOrder<T, R>(concurrency: int, items: seq<T>, fn: (T, nat) -> R, schedule: seq<nat>)
    requires Possible(items, fn, Initial(concurrency, items, fn), schedule)
    requires !AnyActive(After(items, fn, Initial(concurrency, items, fn), schedule).workers)
    ensures var p := After(items, fn, Initial(concurrency, items, fn), schedule);
            if 1 <= concurrency then
              p.results == InOrder(items, fn) && p.calls == CallOrder(|items|, 0)
              && |schedule| == 2 * |items| + Min(concurrency, |items|)
            else
              p.results == Holes(|items|) && p.calls == [] && schedule == []
  {
    if 1 <= concurrency {
      NothingPendsAtTheEnd(concurrency, items, fn, schedule);
      FinishedInOrder(items, fn, After(items, fn, Initial(concurrency, items, fn), schedule));
      WorkersAreCounted(concurrency, items, fn, schedule);
    } else {
      NobodyWorks(concurrency, items, fn, schedule);
    }
  }

  lemma NothingPendsAtTheEnd<T, R>(concurrency: int, items: seq<T>, fn: (T, nat) -> R, schedule: seq<nat>)
    requires 1 <= concurrency && Possible(items, fn, Initial(concurrency, items, fn), schedule)
    requires !AnyActive(After(items, fn, Initial(concurrency, items, fn), schedule).workers)
    ensures After(items, fn, Initial(concurrency, items, fn), schedule).pending == 0
  {
    InitialStepsLeft(items, fn, concurrency);
    ScheduleCounts(items, fn, Initial(concurrency, items, fn), schedule);
  }

  lemma NobodyWorks<T, R>(concurrency: int, items: seq<T>, fn: (T, nat) -> R, schedule: seq<nat>)
    requires concurrency < 1 && Possible(items, fn, Initial(concurrency, items, fn), schedule)
    ensures schedule == [] && After(items, fn, Initial(concurrency, items, fn), schedule) == Initial(concurrency, items, fn)
  {
    assert Initial(concurrency, items, fn).workers == [];
  }

  lemma {:induction false} OneMore<T, R>(items: seq<T>, fn: (T, nat) -> R, p: Pool<R>, schedule: seq<nat>, k: nat)
    requires Good(items, fn, p) && Possible(items, fn, p, schedule)
    requires var q := After(items, fn, p, schedule); k < |q.workers| && Active(q.workers[k])
    ensures Possible(items, fn, p, schedule + [k])
    ensures After(items, fn, p, schedule + [k]) == Next(items, fn, After(items, fn, p, schedule), k)
    decreases |schedule|
  {
    if schedule == [] {
      assert schedule + [k] == [k] && [k][1..] == [];
      NextIsGood(items, fn, p, k);
    } else {
      assert (schedule + [k])[1..] == schedule[1..] + [k];
      NextIsGood(items, fn, p, schedule[0]);
      OneMore(items, fn, Next(items, fn, p, schedule[0]), schedule[1..], k);
    }
  }

  lemma Extends<T, R>(concurrency: int, items: seq<T>, fn: (T, nat) -> R, schedule: seq<nat>, p: Pool<R>, k: nat)
    requires Good(items, fn, p) && Possible(items, fn, Initial(concurrency, items, fn), schedule)
    requires After(items, fn, Initial(concurrency, items, fn), schedule) == p
    requires k < |p.workers| && Active(p.workers[k])
    ensures var q := Next(items, fn, p, k);
            && Good(items, fn, q) && StepsLeft(q.pending, q.workers) < StepsLeft(p.pending, p.workers)
            && Possible(items, fn, Initial(concurrency, items, fn), schedule + [k])
            && After(items, fn, Initial(concurrency, items, fn), schedule + [k]) == q
  {
    NextIsGood(items, fn, p, k);
    OneMore(items, fn, Initial(concurrency, items, fn), schedule, k);
  }

  /** The event loop picks an active worker for each stretch; every choice leads to the same result. */
  method WorkPoolWithResults<T, R>(concurrency: int, items: seq<T>, fn: (T, nat) -> R)
      returns (results: seq<Option<R>>, ghost schedule: seq<nat>)
    ensures results == if 1 <= concurrency then InOrder(items, fn) else Holes(|items|)
    ensures Possible(items, fn, Initial(concurrency, items, fn), schedule)
    ensures var p := After(items, fn, Initial(concurrency, items, fn), schedule);
            !AnyActive(p.workers) && results == p.results
  {
    var pending: nat := |items|;
    var workers := seq(WorkerCount(concurrency, |items|), _ => Popping);
    results, schedule := Holes(|items|), [];
    ghost var p := Initial(concurrency, items, fn);
    while AnyActive(workers)
      invariant Good(items, fn, p) && p.pending == pending && p.workers == workers && p.results == results
      invariant Possible(items, fn, Initial(concurrency, items, fn), schedule)
      invariant After(items, fn, Initial(concurrency, items, fn), schedule) == p
      decreases StepsLeft(pending, workers)
    {
      var k :| 0 <= k < |workers| && Active(workers[k]);
      Extends(concurrency, items, fn, schedule, p, k);
      schedule, p := schedule + [k], Next(items, fn, p, k);
      if workers[k].Popping? {
        workers := workers[k := AfterPop(pending)];
        if pending > 0 {
          pending := pending - 1;
        }
      } else {
        var i := workers[k].index;
        results := results[i := Some(fn(items[i], i))];
        workers := workers[k := Popping];
      }
    }
    EveryScheduleEndsInOrder(concurrency, items, fn, schedule);
  }

  lemma {:induction false} AllReturned(pending: nat, workers: seq<Worker>)
    requires pending == 0 && !AnyActive(workers)
    ensures StepsLeft(pending, workers) == 0
  {
    if workers != [] {
      assert !Active(workers[0]);
      assert forall k :: 0 <= k < |workers| - 1 ==> workers[1..][k] == workers[k + 1];
      AllReturned(pending, workers[1..]);
    }
  }

  // ---------------------------------------------------------------- batches

  /** `items.slice(i, i + batchSize)` */
  function Slice<T>(items: seq<T>, i: nat, batchSize: nat): seq<T>
    requires i <= |items|
  {
    items[i..Min(i + batchSize, |items|)]
  }

  /** The outputs of `fn` on consecutive batches, one after the other. */
  function Batched<T, R>(items: seq<T>, batchSize: nat, fn: seq<T> -> seq<R>): seq<R>
    requires 0 < batchSize
    decreases |items|
  {
    if items == [] then []
    else fn(Slice(items, 0, batchSize)) + Batched(items[Min(batchSize, |items|)..], batchSize, fn)
  }

  method ProcessBatches<T, R>(items: seq<T>, batchSize: nat, fn: seq<T> -> seq<R>) returns (results: seq<R>)
    requires 0 < batchSize
    ensures results == Batched(items, batchSize, fn)
  {
    results := [];
    var i := 0;
    while i < |items|
      invariant 0 <= i
      invariant results + Batched(items[Min(i, |items|)..], batchSize, fn) == Batched(items, batchSize, fn)
    {
      var batch := Slice(items, i, batchSize);
      FirstBatch(items, i, batchSize, fn);
      Regroup(results, fn(batch), Batched(items[Min(i + batchSize, |items|)..], batchSize, fn));
      results := results + fn(batch);
      i := i + batchSize;
    }
    NothingLeft(items, i, batchSize, fn);
  }

  lemma Regroup<X>(a: seq<X>, b: seq<X>, c: seq<X>)
    ensures a + (b + c) == (a + b) + c
  {
  }

  lemma NothingLeft<T, R>(items: seq<T>, i: nat, batchSize: nat, fn: seq<T> -> seq<R>)
    requires 0 < batchSize && |items| <= i
    ensures Batched(items[Min(i, |items|)..], batchSize, fn) == []
  {
  }

  lemma FirstBatch<T, R>(items: seq<T>, i: nat, batchSize: nat, fn: seq<T> -> seq<R>)
    requires 0 < batchSize && i < |items|
    ensures Batched(items[i..], batchSize, fn)
         == fn(Slice(items, i, batchSize)) + Batched(items[Min(i + batchSize, |items|)..], batchSize, fn)
  {
    assert items[i..][..Min(batchSize, |items| - i)] == Slice(items, i, batchSize);
    assert items[i..][Min(batchSize, |items| - i)..] == items[Min(i + batchSize, |items|)..];
  }

  /** Where `fn` works on a batch as on its parts the batch size does not matter: the result is that of
      one call on all items. */
  lemma {:induction false} BatchSizeIsIrrelevant<T(!new), R>(items: seq<T>, batchSize: nat, fn: seq<T> -> seq<R>)
    requires 0 < batchSize
    requires forall a, b :: fn(a + b) == fn(a) + fn(b)
    ensures Batched(items, batchSize, fn) == fn(items)
    decreases |items|
  {
    if items != [] {
      var m := Min(batchSize, |items|);
      BatchSizeIsIrrelevant(items[m..], batchSize, fn);
      assert items == items[..m] + items[m..];
      assert Slice(items, 0, batchSize) == items[..m];
    } else {
      assert [] + items == items;
      assert |fn(items)| == |fn(items)| + |fn(items)|;
    }
  }

  /** The consecutive batches that the items are cut into. */
  function Batches<T>(items: seq<T>, batchSize: nat): (batches: seq<seq<T>>)
    requires 0 < batchSize
    ensures Join(batches) == items
    ensures forall k :: 0 <= k < |batches| ==> 0 < |batches[k]| <= batchSize
    ensures forall k :: 0 <= k < |batches| - 1 ==> |batches[k]| == batchSize
    decreases |items|
  {
    if items == [] then []
    else if |items| <= batchSize then [items]
    else [items[..batchSize]] + Batches(items[batchSize..], batchSize)
  }

  function Join<X>(parts: seq<seq<X>>): seq<X> {
    if parts == [] then [] else parts[0] + Join(parts[1..])
  }

  function Each<T, R>(batches: seq<seq<T>>, fn: seq<T> -> seq<R>): (r: seq<seq<R>>)
    ensures |r| == |batches| && forall k :: 0 <= k < |r| ==> r[k] == fn(batches[k])
  {
    if batches == [] then [] else [fn(batches[0])] + Each(batches[1..], fn)
  }

  /** `fn` is called on consecutive batches of full size, but for the last, and the results follow one another. */
  lemma {:induction false} BatchedByBatches<T, R>(items: seq<T>, batchSize: nat, fn: seq<T> -> seq<R>)
    requires 0 < batchSize
    ensures Batched(items, batchSize, fn) == Join(Each(Batches(items, batchSize), fn))
    decreases |items|
  {
    if items == [] {
    } else if |items| <= batchSize {
      assert Slice(items, 0, batchSize) == items;
      assert Each([items], fn)[1..] == [];
    } else {
      BatchedByBatches(items[batchSize..], batchSize, fn);
      var rest := Batches(items[batchSize..], batchSize);
      assert ([items[..batchSize]] + rest)[1..] == rest;
      assert Each([items[..batchSize]] + rest, fn)[1..] == Each(rest, fn);
    }
  }
}
