/** All interleavings of a worker pool: conservation of work, exact statistics,
    work conservation, and termination of `stop`. */
module WorkerPoolRuns {
  import opened Prelude
  import opened WorkStealingDeque
  import opened WorkerPool

  /** One running call of `workerLoop`; a restart before the old calls end gives a worker several. */
  datatype Activation<T> = Activation(worker: nat, phase: Phase<T>)

  /** The pool, its suspended loops, and the history of its items. */
  datatype System<T(==)> = System(
    queues: seq<seq<WorkItem<T>>>,
    running: bool,
    live: seq<bool>,
    loops: seq<Activation<T>>,
    totalExecuted: nat,
    totalStolen: nat,
    submitted: multiset<WorkItem<T>>,
    executed: multiset<WorkItem<T>>,
    stolen: multiset<WorkItem<T>>,   // those of the executed items that had been stolen
    failed: multiset<WorkItem<T>>)

  /** Any of these may come next; `k` names a suspended loop, `start` is the random scan start. */
  datatype Action<T> =
    | Start
    | Submit(item: WorkItem<T>, target: Option<int>)
    | Resume(k: nat, start: nat)
    | Succeed(k: nat)
    | Fail(k: nat)
    | Wake(k: nat)
    | Stop

  ghost function Initial<T>(workerCount: nat): System<T> {
    System(seq(workerCount, _ => []), false, seq(workerCount, _ => false), [], 0, 0,
           multiset{}, multiset{}, multiset{}, multiset{})
  }

  ghost predicate WellFormed<T>(s: System<T>) {
    && |s.live| == |s.queues|
    && forall k :: 0 <= k < |s.loops| ==> s.loops[k].worker < |s.queues|
  }

  ghost predicate Enabled<T>(s: System<T>, a: Action<T>) {
    match a
    case Start | Submit(_, _) | Stop => true
    case Resume(k, start) => k < |s.loops| && s.loops[k].phase.AtHead? && start < |s.queues|
    case Succeed(k) => k < |s.loops| && s.loops[k].phase.Executing?
    case Fail(k) => k < |s.loops| && s.loops[k].phase.Executing?
    case Wake(k) => k < |s.loops| && s.loops[k].phase.Waiting?
  }

  ghost function MoveTo<T>(s: System<T>, k: nat, phase: Phase<T>): System<T>
    requires k < |s.loops|
  {
    s.(loops := s.loops[k := Activation(s.loops[k].worker, phase)])
  }

  ghost function NewLoops<T>(n: nat): seq<Activation<T>> {
    seq(n, w requires 0 <= w => Activation(w, AtHead))
  }

  ghost function Next<T>(s: System<T>, a: Action<T>): System<T>
    requires WellFormed(s) && Enabled(s, a)
  {
    match a
    case Start =>
      if s.running then s
      else s.(running := true, live := seq(|s.queues|, _ => true),
              loops := s.loops + NewLoops(|s.queues|))
    case Submit(item, target) =>
      var w := Target(s.queues, target);
      if w.None? then s
      else s.(queues := Submitted(s.queues, w, item), submitted := s.submitted + multiset{item})
    case Resume(k, start) =>
      var w := s.loops[k].worker;
      var (phase, queues) := Head(s.queues, s.running && s.live[w], w, start);
      MoveTo(s, k, phase).(queues := queues)
    case Succeed(k) =>
      var e := s.loops[k].phase;
      MoveTo(s, k, AtHead).(totalExecuted := s.totalExecuted + 1,
                            totalStolen := s.totalStolen + (if e.stolen then 1 else 0),
                            executed := s.executed + multiset{e.item},
                            stolen := s.stolen + (if e.stolen then multiset{e.item} else multiset{}))
    case Fail(k) => MoveTo(s, k, AtHead).(failed := s.failed + multiset{s.loops[k].phase.item})
    case Wake(k) => MoveTo(s, k, AtHead)
    case Stop => s.(running := false, live := seq(|s.queues|, _ => false))
  }

  lemma NextIsWellFormed<T>(s: System<T>, a: Action<T>)
    requires WellFormed(s) && Enabled(s, a)
    ensures WellFormed(Next(s, a)) && |Next(s, a).queues| == |s.queues|
  {
    match a
    case Resume(k, start) => assert Next(s, a).loops[k].worker == s.loops[k].worker;
    case Start => StartIsWellFormed(s);
    case _ =>
  }

  lemma StartIsWellFormed<T>(s: System<T>)
    requires WellFormed(s)
    ensures WellFormed(Next(s, Start))
  {
  }

  /** `actions` is an interleaving that can happen from `s`. */
  ghost predicate Possible<T>(s: System<T>, actions: seq<Action<T>>)
    requires WellFormed(s)
    decreases |actions|
  {
    actions == [] ||
    (Enabled(s, actions[0]) && (NextIsWellFormed(s, actions[0]); Possible(Next(s, actions[0]), actions[1..])))
  }

  ghost function After<T>(s: System<T>, actions: seq<Action<T>>): System<T>
    requires WellFormed(s) && Possible(s, actions)
    decreases |actions|
  {
    if actions == [] then s
    else NextIsWellFormed(s, actions[0]); After(Next(s, actions[0]), actions[1..])
  }

  // ---------------------------------------------------------------- conservation

  ghost function Holding<T>(phase: Phase<T>): multiset<WorkItem<T>> {
    if phase.Executing? then multiset{phase.item} else multiset{}
  }

  ghost function InFlight<T>(loops: seq<Activation<T>>): multiset<WorkItem<T>> {
    if loops == [] then multiset{} else Holding(loops[0].phase) + InFlight(loops[1..])
  }

  /** The occurrences of `x` in the queues, in the workers' hands, and in the history add up. */
  ghost predicate Balanced<T>(s: System<T>, x: WorkItem<T>) {
    s.submitted[x] == QueuedItems(s.queues)[x] + InFlight(s.loops)[x] + s.executed[x] + s.failed[x]
  }

  ghost predicate Counted<T>(s: System<T>) {
    s.totalExecuted == |s.executed| && s.totalStolen == |s.stolen| && s.stolen <= s.executed
  }

  lemma {:induction false} QueueUpdate<T>(queues: seq<seq<T>>, w: nat, q: seq<T>, x: T)
    requires w < |queues|
    ensures QueuedItems(queues[w := q])[x] + multiset(queues[w])[x] == QueuedItems(queues)[x] + multiset(q)[x]
  {
    if w == 0 {
      assert queues[w := q][1..] == queues[1..];
    } else {
      assert queues[w := q][1..] == queues[1..][w - 1 := q];
      QueueUpdate(queues[1..], w - 1, q, x);
    }
  }

  lemma {:induction false} LoopUpdate<T>(loops: seq<Activation<T>>, k: nat, a: Activation<T>, x: WorkItem<T>)
    requires k < |loops|
    ensures InFlight(loops[k := a])[x] + Holding(loops[k].phase)[x] == InFlight(loops)[x] + Holding(a.phase)[x]
  {
    if k == 0 {
      assert loops[k := a][1..] == loops[1..];
    } else {
      assert loops[k := a][1..] == loops[1..][k - 1 := a];
      LoopUpdate(loops[1..], k - 1, a, x);
    }
  }

  lemma {:induction false} NewLoopsHoldNothing<T>(loops: seq<Activation<T>>, more: seq<Activation<T>>)
    requires forall k :: 0 <= k < |more| ==> more[k].phase.AtHead?
    ensures InFlight(loops + more) == InFlight(loops)
    decreases |loops|, |more|
  {
    if loops != [] {
      assert (loops + more)[1..] == loops[1..] + more;
      NewLoopsHoldNothing(loops[1..], more);
    } else if more != [] {
      NewLoopsHoldNothing(loops, more[1..]);
      assert loops + more == more && loops + more[1..] == more[1..];
    }
  }

  /** Taking `y` off either end of a queue lowers the queued occurrences of `y` by one. */
  lemma TakeOne<T>(queues: seq<seq<T>>, w: nat, rest: seq<T>, y: T, x: T)
    requires w < |queues| && (queues[w] == rest + [y] || queues[w] == [y] + rest)
    ensures QueuedItems(queues[w := rest])[x] + multiset{y}[x] == QueuedItems(queues)[x]
  {
    QueueUpdate(queues, w, rest, x);
  }

  lemma PopConserves<T>(queues: seq<seq<T>>, w: nat, x: T)
    requires w < |queues| && queues[w] != []
    ensures var last := |queues[w]| - 1;
            QueuedItems(queues[w := queues[w][..last]])[x] + multiset{queues[w][last]}[x] == QueuedItems(queues)[x]
  {
    var last := |queues[w]| - 1;
    assert queues[w] == queues[w][..last] + [queues[w][last]];
    TakeOne(queues, w, queues[w][..last], queues[w][last], x);
  }

  lemma StealConserves<T>(queues: seq<seq<T>>, v: nat, x: T)
    requires v < |queues| && queues[v] != []
    ensures QueuedItems(queues[v := queues[v][1..]])[x] + multiset{queues[v][0]}[x] == QueuedItems(queues)[x]
  {
    assert queues[v] == [queues[v][0]] + queues[v][1..];
    TakeOne(queues, v, queues[v][1..], queues[v][0], x);
  }

  /** The head of the loop only moves an item from a queue into the worker's hands. */
  lemma HeadConserves<T>(queues: seq<seq<WorkItem<T>>>, go: bool, w: nat, start: nat, x: WorkItem<T>)
    requires w < |queues|
    ensures var (phase, after) := Head(queues, go, w, start);
            QueuedItems(after)[x] + Holding(phase)[x] == QueuedItems(queues)[x]
  {
    if go && queues[w] != [] {
      PopConserves(queues, w, x);
    } else if go && Victim(queues, w, start, 0).Some? {
      StealConserves(queues, Victim(queues, w, start, 0).value, x);
    }
  }

  lemma ResumeKeepsBalance<T>(s: System<T>, k: nat, start: nat, x: WorkItem<T>)
    requires WellFormed(s) && Enabled(s, Resume(k, start)) && Balanced(s, x)
    ensures Balanced(Next(s, Resume(k, start)), x)
  {
    var w := s.loops[k].worker;
    var (phase, queues) := Head(s.queues, s.running && s.live[w], w, start);
    HeadConserves(s.queues, s.running && s.live[w], w, start, x);
    LoopUpdate(s.loops, k, Activation(w, phase), x);
  }

  lemma SubmitKeepsBalance<T>(s: System<T>, item: WorkItem<T>, target: Option<int>, x: WorkItem<T>)
    requires WellFormed(s) && Balanced(s, x)
    ensures Balanced(Next(s, Submit(item, target)), x)
  {
    var w := Target(s.queues, target);
    if w.Some? {
      QueueUpdate(s.queues, w.value, s.queues[w.value] + [item], x);
    }
  }

  lemma SettleKeepsBalance<T>(s: System<T>, a: Action<T>, x: WorkItem<T>)
    requires WellFormed(s) && Enabled(s, a) && Balanced(s, x)
    requires a.Succeed? || a.Fail? || a.Wake?
    ensures Balanced(Next(s, a), x)
  {
    LoopUpdate(s.loops, a.k, Activation(s.loops[a.k].worker, AtHead), x);
  }

  lemma StepKeepsBalance<T>(s: System<T>, a: Action<T>, x: WorkItem<T>)
    requires WellFormed(s) && Enabled(s, a) && Balanced(s, x)
    ensures Balanced(Next(s, a), x)
  {
    match a
    case Start => NewLoopsHoldNothing(s.loops, NewLoops(|s.queues|));
    case Submit(item, target) => SubmitKeepsBalance(s, item, target, x);
    case Resume(k, start) => ResumeKeepsBalance(s, k, start, x);
    case Succeed(_) => SettleKeepsBalance(s, a, x);
    case Fail(_) => SettleKeepsBalance(s, a, x);
    case Wake(_) => SettleKeepsBalance(s, a, x);
    case Stop =>
  }

  lemma {:induction false} RunKeepsBalance<T>(s: System<T>, actions: seq<Action<T>>, x: WorkItem<T>)
    requires WellFormed(s) && Possible(s, actions) && Balanced(s, x)
    ensures Balanced(After(s, actions), x)
    decreases |actions|
  {
    if actions != [] {
      StepKeepsBalance(s, actions[0], x);
      NextIsWellFormed(s, actions[0]);
      RunKeepsBalance(Next(s, actions[0]), actions[1..], x);
    }
  }

  lemma {:induction false} RunKeepsCounts<T>(s: System<T>, actions: seq<Action<T>>)
    requires WellFormed(s) && Possible(s, actions) && Counted(s)
    ensures Counted(After(s, actions))
    decreases |actions|
  {
    if actions != [] {
      NextIsWellFormed(s, actions[0]);
      RunKeepsCounts(Next(s, actions[0]), actions[1..]);
    }
  }

  /** In every interleaving `totalExecuted` counts the successes, and `totalStolen` those of them whose
      item had been stolen, so that it never exceeds the former. */
  lemma StatisticsAreExact<T>(workerCount: nat, actions: seq<Action<T>>)
    requires Possible(Initial(workerCount), actions)
    ensures var s := After(Initial(workerCount), actions);
            s.totalExecuted == |s.executed| && s.totalStolen == |s.stolen| && s.stolen <= s.executed
  {
    RunKeepsCounts(Initial<T>(workerCount), actions);
  }

  lemma {:induction false} NothingQueuedInitially<T>(n: nat)
    ensures QueuedItems(seq<seq<WorkItem<T>>>(n, _ => [])) == multiset{}
  {
    if n != 0 {
      NothingQueuedInitially<T>(n - 1);
      assert seq<seq<WorkItem<T>>>(n, _ => [])[1..] == seq(n - 1, _ => []);
    }
  }

  /** In every interleaving no item vanishes and none runs twice: the submitted items are, as a
      multiset, the queued, the executing, the executed and the failed ones together. */
  lemma WorkIsConserved<T(!new)>(workerCount: nat, actions: seq<Action<T>>)
    requires Possible(Initial(workerCount), actions)
    ensures var s := After(Initial(workerCount), actions);
            s.submitted == QueuedItems(s.queues) + InFlight(s.loops) + s.executed + s.failed
  {
    NothingQueuedInitially<T>(workerCount);
    var s := After(Initial(workerCount), actions);
    var placed := QueuedItems(s.queues) + InFlight(s.loops) + s.executed + s.failed;
    forall x ensures s.submitted[x] == placed[x] {
      RunKeepsBalance(Initial<T>(workerCount), actions, x);
    }
    assert s.submitted == placed;
  }

  // ---------------------------------------------------------------- work conservation

  /** No worker goes idle while any deque, its own included, holds an item. */
  lemma NoIdlingBesideWork<T>(s: System<T>, k: nat, start: nat)
    requires WellFormed(s) && Enabled(s, Resume(k, start))
    ensures Next(s, Resume(k, start)).loops[k].phase.Waiting?
       <==> s.running && s.live[s.loops[k].worker] && forall v :: 0 <= v < |s.queues| ==> s.queues[v] == []
  {
    NoVictimMeansNoWork(s.queues, s.loops[k].worker, start);
  }

  // ---------------------------------------------------------------- stop

  /** The steps a loop can still take once the pool has stopped. */
  function StepsLeft<T>(phase: Phase<T>): nat {
    match phase
    case Executing(_, _) | Waiting => 2
    case AtHead => 1
    case Exited => 0
  }

  function TotalStepsLeft<T>(loops: seq<Activation<T>>): nat {
    if loops == [] then 0 else StepsLeft(loops[0].phase) + TotalStepsLeft(loops[1..])
  }

  lemma {:induction false} StepsLeftUpdate<T>(loops: seq<Activation<T>>, k: nat, a: Activation<T>)
    requires k < |loops|
    ensures TotalStepsLeft(loops[k := a]) + StepsLeft(loops[k].phase) == TotalStepsLeft(loops) + StepsLeft(a.phase)
  {
    if k == 0 {
      assert loops[k := a][1..] == loops[1..];
    } else {
      assert loops[k := a][1..] == loops[1..][k - 1 := a];
      StepsLeftUpdate(loops[1..], k - 1, a);
    }
  }

  lemma {:induction false} NoStepsLeftMeansExited<T>(loops: seq<Activation<T>>)
    ensures TotalStepsLeft(loops) <= 2 * |loops|
    ensures TotalStepsLeft(loops) == 0 <==> forall k :: 0 <= k < |loops| ==> loops[k].phase.Exited?
  {
    if loops != [] {
      NoStepsLeftMeansExited(loops[1..]);
      assert forall k :: 1 <= k < |loops| ==> loops[k] == loops[1..][k - 1];
    }
  }

  /** The steps that the loops take themselves. */
  function OwnSteps<T>(actions: seq<Action<T>>): nat {
    if actions == [] then 0
    else (if actions[0].Submit? || actions[0].Stop? || actions[0].Start? then 0 else 1) + OwnSteps(actions[1..])
  }

  /** The queues after the submissions among `actions`, and nothing else. */
  function WithSubmissions<T>(queues: seq<seq<WorkItem<T>>>, actions: seq<Action<T>>): seq<seq<WorkItem<T>>>
    decreases |actions|
  {
    if actions == [] then queues
    else if actions[0].Submit? then
      WithSubmissions(Submitted(queues, Target(queues, actions[0].target), actions[0].item), actions[1..])
    else WithSubmissions(queues, actions[1..])
  }

  lemma StoppedStep<T>(s: System<T>, a: Action<T>)
    requires WellFormed(s) && !s.running && Enabled(s, a) && !a.Start?
    ensures var t := Next(s, a);
            && WellFormed(t) && !t.running
            && t.queues == (if a.Submit? then Submitted(s.queues, Target(s.queues, a.target), a.item) else s.queues)
            && OwnSteps([a]) + TotalStepsLeft(t.loops) == TotalStepsLeft(s.loops)
  {
    NextIsWellFormed(s, a);
    if !a.Submit? && !a.Stop? {
      StepsLeftUpdate(s.loops, a.k, Next(s, a).loops[a.k]);
    }
  }

  /** Once stopped, and until a restart, the queues change by submissions only, no loop starts an item, and
      the loops reach their ends in exactly `TotalStepsLeft` of their own steps. */
  lemma {:induction false} StopDrains<T>(s: System<T>, actions: seq<Action<T>>)
    requires WellFormed(s) && !s.running && Possible(s, actions) && Start !in actions
    ensures var t := After(s, actions);
            && t.queues == WithSubmissions(s.queues, actions)
            && OwnSteps(actions) + TotalStepsLeft(t.loops) == TotalStepsLeft(s.loops)
    decreases |actions|
  {
    if actions != [] {
      assert actions[0] in actions;
      StoppedStep(s, actions[0]);
      StopDrains(Next(s, actions[0]), actions[1..]);
    }
  }

  /** `stop` never waits for ever: unless every loop has exited, one of them can take a step. */
  lemma StopIsNotStuck<T>(s: System<T>)
    requires WellFormed(s) && TotalStepsLeft(s.loops) > 0
    ensures exists a: Action<T> :: Enabled(s, a) && (a.Resume? || a.Succeed? || a.Wake?)
  {
    NoStepsLeftMeansExited(s.loops);
    var k :| 0 <= k < |s.loops| && !s.loops[k].phase.Exited?;
    var resume: Action<T>, succeed: Action<T>, wake: Action<T> := Resume(k, 0), Succeed(k), Wake(k);
    assert Enabled(s, resume) || Enabled(s, succeed) || Enabled(s, wake);
  }

  // ---------------------------------------------------------------- the class performs the actions

  /** The pool object is in the state `s`. */
  ghost predicate Shows<T>(pool: WorkerPool<T>, s: System<T>)
    reads pool, pool.deques
  {
    && pool.Queues() == s.queues
    && pool.running == s.running && pool.workerLoops == s.live
    && pool.totalExecuted == s.totalExecuted && pool.totalStolen == s.totalStolen
  }

  twostate lemma FreshStorageOnly<T>(pool: WorkerPool<T>)
    requires pool.OnlyFreshStorage()
    ensures fresh(pool.Repr() - old(pool.Repr()))
  {
  }

  method PerformSubmit<T>(pool: WorkerPool<T>, ghost s: System<T>, item: WorkItem<T>, target: Option<int>)
    requires pool.Valid() && WellFormed(s) && Shows(pool, s)
    modifies pool.Repr()
    ensures pool.Valid() && fresh(pool.Repr() - old(pool.Repr()))
    ensures Shows(pool, Next(s, Submit(item, target)))
  {
    var accepted := pool.Submit(item.task, item.priority, target, item.enqueuedAt);
    FreshStorageOnly(pool);
  }

  /** What an action does to the pool object, and to the suspended loops, is what `Next` says. */
  method Perform<T>(pool: WorkerPool<T>, ghost s: System<T>, loops: seq<Activation<T>>, a: Action<T>)
      returns (left: seq<Activation<T>>)
    requires pool.Valid() && WellFormed(s) && Shows(pool, s) && loops == s.loops && Enabled(s, a)
    modifies pool.Repr()
    ensures pool.Valid() && fresh(pool.Repr() - old(pool.Repr()))
    ensures Shows(pool, Next(s, a)) && left == Next(s, a).loops
  {
    left := loops;
    match a
    case Start =>
      var started := pool.Start();
      if started {
        assert pool.workerLoops == seq(|s.queues|, _ => true);
        left := loops + seq(|pool.deques|, w requires 0 <= w => Activation(w, AtHead));
      }
    case Submit(item, target) => PerformSubmit(pool, s, item, target);
    case Resume(k, start) =>
      var w := loops[k].worker;
      assert forall d :: d in pool.deques ==> d in pool.Repr();
      var phase := pool.LoopHead(w, start);
      left := loops[k := Activation(w, phase)];
    case Succeed(k) =>
      pool.ExecutorSucceeded(loops[k].phase.stolen);
      left := loops[k := Activation(loops[k].worker, AtHead)];
    case Fail(k) =>
      pool.ExecutorFailed();
      left := loops[k := Activation(loops[k].worker, AtHead)];
    case Wake(k) =>
      pool.WaitElapsed();
      left := loops[k := Activation(loops[k].worker, AtHead)];
    case Stop =>
      pool.Stop();
      assert pool.workerLoops == seq(|s.queues|, _ => false);
  }

  /** Every interleaving, performed on the pool object, leaves it in the state that the runs describe. */
  method PerformAll<T(==)>(pool: WorkerPool<T>, ghost s: System<T>, loops: seq<Activation<T>>, actions: seq<Action<T>>)
      returns (left: seq<Activation<T>>)
    requires pool.Valid() && WellFormed(s) && Shows(pool, s) && loops == s.loops && Possible(s, actions)
    modifies pool.Repr()
    ensures pool.Valid() && fresh(pool.Repr() - old(pool.Repr()))
    ensures Shows(pool, After(s, actions)) && left == After(s, actions).loops
    decreases |actions|
  {
    if actions == [] {
      return loops;
    }
    NextIsWellFormed(s, actions[0]);
    left := Perform(pool, s, loops, actions[0]);
    left := PerformAll(pool, Next(s, actions[0]), left, actions[1..]);
  }

  /** From a new pool on. */
  method Run<T(==)>(workerCount: nat, actions: seq<Action<T>>) returns (pool: WorkerPool<T>, loops: seq<Activation<T>>)
    requires Possible(Initial(workerCount), actions)
    ensures fresh(pool) && pool.Valid()
    ensures Shows(pool, After(Initial(workerCount), actions)) && loops == After(Initial(workerCount), actions).loops
  {
    pool := new WorkerPool<T>(workerCount);
    loops := PerformAll(pool, Initial<T>(workerCount), [], actions);
  }
}
