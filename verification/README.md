# A verified model of the orchestrator's in-memory algorithms

The orchestrator drives many agent sessions at once. Its hard logic sits in small in-memory
algorithms whose state changes between two `await`s: a work-stealing pool, a hook sorter, a
concurrency controller, an optimistic file update, a session pool, a task tree with its
scheduler, and a few transformations of texts and lists. This project models them in Dafny and
proves what they promise.

Each stateful component appears twice. A class (or a method with the loop of the original) does
what the code does, field by field, and is proved to apply a function on plain values. Lemmas then
prove the promises about that function, over every input or every run. JavaScript runs a stretch
of code between two `await`s without interruption, so a protocol with several clients is a
transition system whose steps are those stretches; clocks, random choices, timers, fresh
identifiers, executor outcomes and I/O failures are inputs of the steps.

What the functions that a class applies compute is stated a second time, in terms of the fields and numbers
of the original (a phase, a timestamp, 30 seconds, five tries), over whole runs where the original promises
it for whole runs.

Files, in reading order:

- `Prelude.dfy`, `StableSort.dfy`: shared datatypes; `Array.prototype.sort` by its order and
  stability requirements (section 23.1.3.30 of ECMAScript 2023), which determine it uniquely.
- `WorkStealingDeque.dfy`, `WorkerPool.dfy`, `WorkerPoolRuns.dfy`, `WorkerDispatch.dfy`: the growing
  circular array refines a sequence; the pool built on it conserves work and never idles beside work; what a
  worker takes and where work goes.
- `HookRegistry.dfy`, `HookHistories.dfy`, `HookOrder.dfy`: phase and priority order refined by a
  depth-first topological sort; what any run of registrations leaves, names repeated and registrations failed
  included; the same in terms of phases, priorities and registration times.
- `Concurrency.dfy`, `ConcurrencyRuns.dfy`, `SurplusReleaseRuns.dfy`, `CircuitRuns.dfy`,
  `AdmissionRuns.dfy`: slots, wait queue, one-shot tokens, releases without a grant, circuit breaker,
  auto-scaling, and which acquisition is admitted when.
- `TodoManager.dfy`, `TodoRuns.dfy`, `TodoClients.dfy`: optimistic version check, FIFO mutex and three
  file writes that may fail part-way; the callers' retries and the order of their updates.
- `SessionPool.dfy`, `SessionPoolRuns.dfy`, `SessionLimitRuns.dfy`, `SurplusSessionRuns.dfy`,
  `SessionEvictions.dfy`: two indexes over the same session objects, exclusive use, when the limit on idle
  sessions is exceeded, what a release that nobody owes does, and which session is deleted or handed out.
- `TaskStore.dfy`, `TaskParser.dfy`, `TaskScheduler.dfy`: the task tree, the level stack that
  builds it and the runs that the scheduler drives.
- `WorkPool.dfy`, `JsoncComments.dfy`, `ProgressTracker.dfy`, `ProgressReports.dfy`,
  `MemoryManager.dfy`, `MemoryOrder.dfy`, `MemoryRanks.dfy`: ordered parallel map, comment stripping,
  canonical snapshots with stagnation counting and reports, budgeted memory.

Promises that the code does not keep everywhere, each with its exact condition and, where a run is
needed, a run that breaks it:

- Slot accounting: a release that no outstanding grant stands behind is harmless if and only if the
  key has neither a waiter nor an active slot (`SurplusReleaseRuns.SurplusIsHarmlessExactly`), so a
  run keeps its slots accounted for if and only if no such release finds one
  (`SurplusReleaseRuns.SlotsAreAccountedForExactly`). The launcher and the poller do release the same
  key twice (src/core/agents/manager/task-launcher.ts:245,
  src/core/agents/manager/task-poller.ts:152-153); from a fresh key with any limit of at
  least 1 that ends above the limit (`SurplusReleaseRuns.DoubleReleaseOverCommits`).
- Exclusive use of sessions: pruning an expired task and its scheduled cleanup both release its session
  (src/core/agents/manager/task-cleaner.ts:57, src/core/agents/manager/task-cleaner.ts:73). A release that
  nobody owes is harmless if and only if its last stretch does not find the session in use, so a run is
  exclusive at every moment if and only if none does (`SurplusSessionRuns.SessionsAreExclusiveExactly`);
  otherwise one session can get two holders (`SurplusSessionRuns.SessionIsSharedByTwo`).
- The maximum of idle sessions per agent. The idle sessions pass it exactly when a release ends while as many
  are idle as allowed (`SessionLimitRuns.IdleExceedsExactly`, over runs
  `SessionLimitRuns.IdleMaximumIsRespectedExactly`). The idle ones and those whose release is under way
  together pass it exactly when a release begins with the maximum reached and either another release of the
  agent under way or the maximum 0 (`SessionLimitRuns.ReleaseExceedsExactly`, over runs
  `SessionLimitRuns.MaximumIsRespectedExactly`); if the releases then end with nothing in between, the idle
  sessions pass the maximum if and only if these did (`SessionLimitRuns.EndingsExceedExactly`). Every maximum
  is exceeded by some run (`SessionLimitRuns.OverlapExceedsAnyMaximum`).
- The order of hooks. Without dependencies a registration leaves the list in priority order if and only if
  no name's registrations are nested in another's (`HookHistories.HistoryIsOrderedExactly`); a repeated name
  can nest them (`HookHistories.RepeatedNameBreaksOrder`). With dependencies, sorting at every registration
  and sorting the history once order ties differently (`HookHistories.StepsDifferFromAtOnce`); the holder of
  every name, the exceptions and the dependencies come out as they should all the same
  (`HookHistories.HistoryDecidesNames`, `HookHistories.RegisterThrowsExactly`,
  `HookHistories.EveryRegistrationSorts`).
- What a memory level keeps is independent of the order of the adds if and only if no other entry would fit
  behind the longest fitting prefix of the ranking and the entries of that prefix tie with none but entries
  that exceed the budget alone (`MemoryOrder.OrderIsIrrelevantExactly`). One entry that outranks all others
  and exceeds the budget alone empties its level, itself included (`MemoryManager.EmptiedByOversizedFirst`).
- A todo version pins its content if and only if no rename is pending, or only one that changes nothing
  (`TodoRuns.ContentIsPinnedExactly`); every update that changes the content passes through a state in
  which it does not (`TodoRuns.SomeReadIsNotPinned`). `readWithVersion` reads the content first and the
  version later; the pair is good if and only if the content is still the same at the second read, at which
  the first condition must hold (`TodoRuns.PairIsPinnedExactly`), and an update that falls between the two
  reads makes a bad pair (`TodoRuns.SomePairIsNotPinned`). The modelled clients use the version only.
- The order of a todo list shows in its snapshot exactly when a todo without an id stands beside an
  otherwise equal one whose id is U+FFFF (`ProgressTracker.OrderMattersExactlyOnClashes`).
- Auto-scaling can make a finite limit unlimited if and only if it is negative: it climbs to 0, which means
  unlimited, by successes alone (`ConcurrencyRuns.BecomesUnlimitedExactly`, `ConcurrencyRuns.NegativeClimbs`).
- The counters of `getProgress` add up exactly when no task has ended in `error` or `timeout`, although
  `isComplete` takes those as done (`TaskStore.CountersAddUp`).

## Model

| member | source | states |
|---|---|---|
| WorkStealingDeque.WindowSlotsAreDistinct | src/core/queue/work-stealing-deque.ts:31-37 | indices of a window no longer than the capacity never fall on the same slot |
| WorkStealingDeque.PutAppends | src/core/queue/work-stealing-deque.ts:35-37 | a write at the running index behind the last item appends to the represented sequence |
| WorkStealingDeque.CircularArray.Put | src/core/queue/work-stealing-deque.ts:35-37 | exactly the slot at the index modulo the capacity changes |
| WorkStealingDeque.CircularArray.Grow | src/core/queue/work-stealing-deque.ts:39-48 | under the doubled modulus the new array represents the same sequence |
| WorkStealingDeque.WorkStealingDeque.Push | src/core/queue/work-stealing-deque.ts:71-84 | appends, growing when full; nothing is lost, duplicated or reordered |
| WorkStealingDeque.WorkStealingDeque.Pop | src/core/queue/work-stealing-deque.ts:90-121 | removes and returns the last item, null exactly when empty; the lost-race branch is unreachable |
| WorkStealingDeque.WorkStealingDeque.Steal | src/core/queue/work-stealing-deque.ts:127-149 | removes and returns the first item, null exactly when empty; the lost-race branch is unreachable |
| WorkStealingDeque.WorkStealingDeque.Size | src/core/queue/work-stealing-deque.ts:154-158 | the length of the represented sequence |
| WorkStealingDeque.WorkStealingDeque.Perform | src/core/queue/work-stealing-deque.ts:71-149 | every operation does to the deque what it does to a plain sequence |
| WorkStealingDeque.Run | src/core/queue/work-stealing-deque.ts:58-149 | any run on a deque of any capacity of at least 1 returns what the same run on a sequence returns |
| WorkStealingDeque.RunConserves | src/core/queue/work-stealing-deque.ts:71-149 | over every run, initial plus pushed items equal taken plus remaining ones as multisets |
| WorkStealingDeque.ThievesAreFifo | src/core/queue/work-stealing-deque.ts:127-149 | without owner pops, stolen then remaining items are exactly the items in arrival order |
| WorkStealingDeque.OwnerIsLifo | src/core/queue/work-stealing-deque.ts:90-121 | popping once per pushed item returns the pushed items latest first and restores what was there |
| WorkerPool.ScanVisitsEachWorkerOnce | src/core/queue/worker-pool.ts:151-155 | from every start index the wrap-around scan meets each worker exactly once |
| WorkerPool.VictimIsNearest | src/core/queue/worker-pool.ts:153-169 | the victim is the first other worker with work in scan order from the start index |
| WorkerPool.NoVictimMeansNoWork | src/core/queue/worker-pool.ts:149-170 | stealing returns null if and only if every other deque is empty |
| WorkerPool.LeastLoaded | src/core/queue/worker-pool.ts:189-204 | a shortest queue, and the first of the shortest |
| WorkerPool.WorkerPool.constructor | src/core/queue/worker-pool.ts:43-56 | one empty deque of its own storage per worker, not running, counters 0 |
| WorkerPool.WorkerPool.Start | src/core/queue/worker-pool.ts:61-67 | begins loops for all workers unless already running; queues untouched |
| WorkerPool.WorkerPool.GetLeastLoadedWorker | src/core/queue/worker-pool.ts:189-204 | the loop over the deques finds the first shortest queue, or none without workers |
| WorkerPool.WorkerPool.Submit | src/core/queue/worker-pool.ts:75-88 | appends to the chosen worker's queue only; refuses exactly an unknown worker and then changes nothing |
| WorkerPool.WorkerPool.TrySteal | src/core/queue/worker-pool.ts:149-170 | takes the first item of the nearest victim's queue and leaves all other queues alone |
| WorkerPool.WorkerPool.LoopHead | src/core/queue/worker-pool.ts:97-141 | from the loop condition to the next await: own last item, else a stolen one, else waiting |
| WorkerDispatch.WorkerTakesExactly | src/core/queue/worker-pool.ts:97-170 | a live worker takes the last item of its own queue, not stolen; else the first item of the first other queue in scan order that has one, stolen; and waits if and only if all are empty; no other queue changes |
| WorkerDispatch.ResumedLoopTakes | src/core/queue/worker-pool.ts:97-170 | in every state a loop that resumes does that, or ends if the pool or its worker has stopped |
| WorkerDispatch.SubmittedGoes | src/core/queue/worker-pool.ts:75-88 | work goes to the end of the named worker's queue, or of the first shortest one if none is named, and an unknown worker is refused |
| WorkerPool.WorkerPool.ExecutorSucceeded | src/core/queue/worker-pool.ts:107-116 | counts one execution, and one steal if the item was stolen, and resets the wait to 1 ms; queues untouched |
| WorkerPool.WorkerPool.ExecutorFailed | src/core/queue/worker-pool.ts:110-116 | a failed item is dropped and counted nowhere, and the wait is reset to 1 ms |
| WorkerPool.WorkerPool.WaitElapsed | src/core/queue/worker-pool.ts:176-184 | the wait grows by half, up to 100 ms, and never shrinks |
| WorkerPool.WorkerPool.Stop | src/core/queue/worker-pool.ts:209-215 | clears the running flag and every loop flag; queues untouched |
| WorkerPool.WorkerPool.GetQueuedCount | src/core/queue/worker-pool.ts:258-264 | the number of items in all queues together |
| WorkerPoolRuns.HeadConserves | src/core/queue/worker-pool.ts:97-137 | the loop head only moves an item from a queue into the worker's hands |
| WorkerPoolRuns.WorkIsConserved | src/core/queue/worker-pool.ts:75-144 | in every interleaving, submitted items equal queued plus executing plus executed plus failed ones as multisets |
| WorkerPoolRuns.StatisticsAreExact | src/core/queue/worker-pool.ts:107-130 | in every interleaving the executed counter is the number of successes and the stolen counter the number of those whose item was stolen |
| WorkerPoolRuns.NoIdlingBesideWork | src/core/queue/worker-pool.ts:93-170 | for every start index a live worker enters the wait if and only if all deques are empty |
| WorkerPoolRuns.StopDrains | src/core/queue/worker-pool.ts:209-221 | after a stop and until a restart the queues change by submissions only, and the loops end after exactly the counted number of their own steps |
| WorkerPoolRuns.Perform | src/core/queue/worker-pool.ts:61-170 | every action, performed on the pool object, has on its queues, flags, counters and loops the effect that the runs are made of |
| WorkerPoolRuns.Run | src/core/queue/worker-pool.ts:43-221 | every interleaving, performed on a new pool object, leaves it in the state that the runs describe |
| WorkerPoolRuns.StopIsNotStuck | src/core/queue/worker-pool.ts:209-221 | until all loops have ended one of them can take a step, so stop does not wait for ever |
| StableSort.SortContents | src/hooks/registry.ts:72-79 | the sort permutes its input |
| StableSort.SortIsStableSort | src/hooks/registry.ts:72-79 | the result is in order and keeps the input order inside every class of ties |
| StableSort.StableSortIsUnique | src/hooks/registry.ts:72-79 | order and stability determine the result, so any implementation of the sort agrees |
| HookRegistry.RankIsTotalPreorder | src/hooks/registry.ts:72-79 | phase then priority is a total preorder, so the sort is well defined |
| HookRegistry.ByNameIsLast | src/hooks/registry.ts:96 | the name map holds the last-ranked registration of each name |
| HookRegistry.DfsIsSound | src/hooks/registry.ts:98-115 | a visit outputs the reachable unvisited names with dependencies first; if it raises there is a cycle |
| HookRegistry.DfsAllIsSound | src/hooks/registry.ts:107-119 | the same for a list of visits |
| HookRegistry.OrderedIsAcyclic | src/hooks/registry.ts:98-121 | an output in which dependencies come first excludes every cycle |
| HookRegistry.RaisesExactlyOnCycles | src/hooks/registry.ts:92-122 | the sort throws if and only if the registered names contain a dependency cycle, self-dependency included |
| HookRegistry.SortsByDependency | src/hooks/registry.ts:92-122 | otherwise each name once, by its last-ranked registration, every present dependency before its dependents |
| HookRegistry.PrefixOfOutput | src/hooks/registry.ts:117-119 | a prefix of the output holds exactly what the first registrations reach |
| HookRegistry.OnlyForcedInversions | src/hooks/registry.ts:70-122 | an earlier-ranked registration comes out later only if something ranked no later than it depends on the other |
| HookRegistry.OrderedListIsKept | src/hooks/registry.ts:92-122 | a priority order that already puts dependencies first is the final order |
| HookRegistry.WithoutDependencies | src/hooks/registry.ts:70-90 | without dependencies the result is the stable priority order |
| HookRegistry.RegistrationsSortHistory | src/hooks/registry.ts:40-90 | over any run of registrations without dependencies, re-sorting each time leaves the stable priority order of the whole history |
| HookHistories.HistoryDecidesNames | src/hooks/registry.ts:40-96 | after any run of registrations, repeated names and failed sorts included, every name is held by the last-ranked of all its registrations, the latest among ties |
| HookHistories.RegisterThrowsExactly | src/hooks/registry.ts:40-115 | after any run, a registration throws if and only if the last-ranked registrations of all names so far contain a dependency cycle |
| HookHistories.SortForcesInversions | src/hooks/registry.ts:70-122 | for any list, an entry comes out before one of strictly earlier phase or priority only if something that ranks no later than that one has its name or depends on it |
| HookHistories.EveryRegistrationSorts | src/hooks/registry.ts:40-122 | after any run, a registration that does not throw leaves each name once, dependencies first, and only forced inversions |
| HookHistories.PriorityOrderExactly | src/hooks/registry.ts:70-122 | without dependencies, names repeated or not, the result is in priority order if and only if no name's registrations are nested in another's |
| HookHistories.HistoryIsOrderedExactly | src/hooks/registry.ts:40-122 | the same for the list that any run of registrations without dependencies leaves |
| HookHistories.NewNameRestoresOrder | src/hooks/registry.ts:40-122 | after any such run, a registration under a new name leaves the list stably sorted by priority |
| HookHistories.RepeatedNameBreaksOrder | src/hooks/registry.ts:96-119 | a second registration of a name that now ranks after another name keeps its early place |
| HookHistories.StepsDifferFromAtOnce | src/hooks/registry.ts:40-122 | three registrations that come out in one order when each sorts anew and in another when all are sorted at once |
| HookOrder.HooksRunInOrder | src/hooks/registry.ts:40-90 | over any run of registrations with different names and no dependencies, early hooks stand first and late ones last, smaller priorities first within a phase, and registration order within a priority |
| HookOrder.HooksRunInOrderUnlessForced | src/hooks/registry.ts:40-122 | after any run, a registration that does not throw leaves dependencies first, and a hook before one of earlier phase or smaller priority only where a dependency or a repeated name forces it |
| HookOrder.ThrowingLeavesOrder | src/hooks/registry.ts:72-90 | a registration that throws leaves all hooks and the new one in the order of phases and priorities, ties as they stood |
| HookOrder.HolderRunsLast | src/hooks/registry.ts:72-96 | after any run each name is held by its registration of latest phase and greatest priority, the latest among several |
| HookOrder.LeftOutCountsAs | src/hooks/registry.ts:60-68 | metadata left out counts as the name of the hook, priority 50, the normal phase and no dependencies; an empty name counts as left out, a priority of 0 does not |
| HookOrder.RegisterAll | src/hooks/registry.ts:40-90 | any calls on a new registry, exceptions included, leave the list that the laws above speak of |
| HookRegistry.TopologicalSorter.Visit | src/hooks/registry.ts:98-115 | the recursion on the mutable sets terminates and computes the functional search |
| HookRegistry.HookRegistry.Register | src/hooks/registry.ts:40-68 | the list becomes the sorted one with the new hook; on a cycle it keeps the new hook in priority order and throws |
| HookRegistry.HookRegistry.TopologicalSortHooks | src/hooks/registry.ts:92-122 | the loop over the registrations computes the topological sort of the list |
| ConcurrencyRuns.InsertIndexSplits | src/core/agents/concurrency.ts:149-154 | all waiters before the insertion point are at least as urgent as the newcomer, and the one at it is less urgent |
| Concurrency.ConcurrencyController.Acquire | src/core/agents/concurrency.ts:108-158 | grants, queues by priority or rejects for one key; all other keys keep their state |
| AdmissionRuns.AdmittedExactly | src/core/agents/concurrency.ts:108-131 | for every key, unlimited ones included: refused by the circuit if and only if it is open and its last failure at most 30 seconds ago, else by pressure if and only if of low priority under pressure, else granted if and only if unlimited or the count is below the limit, else queued |
| AdmissionRuns.AcquiringChanges | src/core/agents/concurrency.ts:108-157 | a grant takes one slot of a limited key, a waiter joins the queue, an attempt after the 30 seconds starts a trial; nothing else changes |
| AdmissionRuns.FifthFailureShutsOut | src/core/agents/concurrency.ts:108-253 | over any history and every limit, after the fifth failure in a row every acquisition of the next 30 seconds is refused, whatever else is reported, unless the circuit is reset |
| AdmissionRuns.NothingRefusedBefore | src/core/agents/concurrency.ts:108-253 | over any history without five failures in a row no acquisition is refused by the circuit |
| AdmissionRuns.CircuitFollowsHistory | src/core/agents/concurrency.ts:180-256 | in every run the circuit of a key is the one that its attempts, reports and resets lead to |
| AdmissionRuns.WaitersAreServedHighFirst | src/core/agents/concurrency.ts:148-168 | in every run high priority waits before normal and low, each class by arrival, and a release grants the first waiter and no other |
| AdmissionRuns.ConfiguredExactly | src/core/agents/concurrency.ts:76-99 | a key that was never set has its model's limit, else its provider's, else its agent's, where 0 means unlimited, else the default as it is, else 10 |
| AdmissionRuns.LimitIsSet | src/core/agents/concurrency.ts:72-81 | setting 0 makes the key unlimited, any other number is its limit |
| AdmissionRuns.ReportsMoveLimitExactly | src/core/agents/concurrency.ts:190-239 | over any mixture of reports, a success raises the limit by one below 50 exactly when it is the third, sixth and so on in a row, a failure lowers it by one above 1 exactly when it is the second, fourth and so on in a row, and nothing else moves it |
| Concurrency.ConcurrencyController.Release | src/core/agents/concurrency.ts:160-175 | hands the slot to the first waiter, else lowers a positive count; nothing for an unlimited key |
| Concurrency.ConcurrencyController.RemoveFromQueue | src/core/agents/concurrency.ts:282-291 | takes exactly the timed-out waiter out of its queue |
| Concurrency.ConcurrencyController.SetLimit | src/core/agents/concurrency.ts:72-81 | the key's limit becomes the given one, 0 meaning unlimited |
| Concurrency.ConcurrencyController.IsCircuitOpen | src/core/agents/concurrency.ts:242-256 | turns away while open, half-opens after more than 30 seconds |
| Concurrency.ConcurrencyController.ReportResult | src/core/agents/concurrency.ts:180-188 | applies the success or failure step of circuit and scaling to one key |
| Concurrency.ConcurrencyController.HandleSuccess | src/core/agents/concurrency.ts:190-214 | circuit success, streak, and a raise after three in a row below the maximum |
| Concurrency.ConcurrencyController.HandleFailure | src/core/agents/concurrency.ts:216-240 | circuit failure, failure count, and a cut after two in a row above 1 |
| Concurrency.ConcurrencyController.ResetCircuit | src/core/agents/concurrency.ts:320-326 | closes the key's circuit and clears its counters |
| Concurrency.ConcurrencyToken.Release | src/core/agents/concurrency-token.ts:33-46 | the first call releases the key once, every later call does nothing |
| Concurrency.ConcurrencyToken.TimerFires | src/core/agents/concurrency-token.ts:20-24 | the safety timer releases only a token that is still held |
| ConcurrencyRuns.EnqueueKeepsOrder | src/core/agents/concurrency.ts:148-156 | priority insertion keeps the queue sorted with arrival order inside a class |
| ConcurrencyRuns.RunKeepsInvariant | src/core/agents/concurrency.ts:108-175 | slot, queue and settlement invariants hold after every run with a finite limit |
| ConcurrencyRuns.SlotsAreAccountedFor | src/core/agents/concurrency.ts:108-175 | the active count is the number of outstanding grants and at most the largest limit so far in force |
| ConcurrencyRuns.QueueIsAlwaysSorted | src/core/agents/concurrency.ts:131-157 | in every run the queue is sorted by priority, then arrival |
| ConcurrencyRuns.ReleaseGrantsMostUrgent | src/core/agents/concurrency.ts:160-168 | a release with waiters grants the oldest waiter of the most urgent class and no other |
| ConcurrencyRuns.SettledExactlyOnce | src/core/agents/concurrency.ts:132-168 | every acquisition is settled once, granted or timed out or refused, and until then queued with its timer set |
| ConcurrencyRuns.WaitersMeanFull | src/core/agents/concurrency.ts:122-175 | while the limit is not raised, a waiter means that all slots are taken |
| ConcurrencyRuns.ConstantLimitFillsSlots | src/core/agents/concurrency.ts:122-175 | with a constant limit a non-empty queue means exactly that many outstanding grants |
| SurplusReleaseRuns.SurplusIsHarmlessExactly | src/core/agents/concurrency.ts:160-175 | a release that no grant stands behind keeps count equal to outstanding grants if and only if the queue is empty and the count 0, and then it does nothing |
| SurplusReleaseRuns.DriftIsExact | src/core/agents/concurrency.ts:160-175 | in every run with arbitrary releases, outstanding grants minus count is the sum of releases that found the key busy minus releases that ended a grant, and never negative |
| SurplusReleaseRuns.SlotsAreAccountedForExactly | src/core/agents/concurrency.ts:108-175 | a run is accounted for at every moment if and only if no surplus release of it finds a waiter or an active slot |
| SurplusReleaseRuns.DoubleReleaseOverCommits | src/core/agents/manager/task-poller.ts:152-153 | from a fresh key with any limit of at least 1, a run that releases one grant twice ends with one grant above the limit |
| SurplusReleaseRuns.ClosedKeyOverCommits | src/core/agents/concurrency.ts:160-168 | with a limit of at most 0 a release without a grant admits the first waiter |
| ConcurrencyRuns.LimitStaysInRange | src/core/agents/concurrency.ts:200-239 | over every run a limit between 1 and the maximum stays there unless set otherwise, so it never becomes unlimited |
| ConcurrencyRuns.SuccessesRaiseByThirds | src/core/agents/concurrency.ts:200-213 | n successes in a row raise a limit in range by n div 3, up to the maximum |
| ConcurrencyRuns.FailuresCutByHalves | src/core/agents/concurrency.ts:228-239 | n failures in a row lower a limit in range by n div 2, down to 1 |
| ConcurrencyRuns.ScalingUnlimitsOnlyMinusOne | src/core/agents/concurrency.ts:205-211 | of one report: it makes a finite limit unlimited if and only if it raises minus one |
| ConcurrencyRuns.BecomesUnlimitedExactly | src/core/agents/concurrency.ts:190-240 | some run that does not set the limit makes a finite limit unlimited if and only if the limit is negative |
| ConcurrencyRuns.NegativeClimbs | src/core/agents/concurrency.ts:200-213 | a negative limit becomes unlimited after a counted number of successes, three for each step up to 0 less the streak so far |
| CircuitRuns.CountsTrailingFailures | src/core/agents/concurrency.ts:190-227 | over every history a closed circuit's count is its trailing run of failures, below five |
| CircuitRuns.OpensOnFifthFailure | src/core/agents/concurrency.ts:216-227 | a closed circuit opens exactly on the fifth failure in a row |
| CircuitRuns.HalfOpenMeansTrial | src/core/agents/concurrency.ts:190-256 | a half-open circuit has been in a trial without failure or reset, with as many successes as counted |
| CircuitRuns.TrialMeansHalfOpen | src/core/agents/concurrency.ts:190-256 | conversely such a trial with fewer than two successes leaves the circuit half-open |
| CircuitRuns.RecloseRule | src/core/agents/concurrency.ts:190-198 | an open or half-open circuit closes exactly by reset or by the second success of a trial |
| CircuitRuns.OpenCircuitWaitsOutEveryFailure | src/core/agents/concurrency.ts:242-256 | with a clock that never runs back, an open circuit turns an attempt away exactly if some failure is at most 30 seconds old |
| TodoManager.TodoFiles.InternalUpdate | src/core/todo/todo-manager.ts:107-156 | the retry loop over the two files, for every pattern of write failures |
| TodoManager.UpdateIsAllOrNothing | src/core/todo/todo-manager.ts:107-156 | without success the content is untouched; with success it is the updater's and the version is the expected one plus 1 |
| TodoManager.UpdateSucceedsExactly | src/core/todo/todo-manager.ts:115-154 | success if and only if the version matches, the updater accepts and an attempt without fault comes before the version is burnt |
| TodoManager.UpdateConflictsExactly | src/core/todo/todo-manager.ts:115-154 | a conflict if and only if the version differs, or one of the first two attempts burns the version before any succeeds |
| TodoRuns.RunKeepsInvariant | src/core/todo/todo-manager.ts:86-221 | mutex, files, log and clients stay consistent over every interleaving and every failure |
| TodoRuns.NoUpdateIsLost | src/core/todo/todo-manager.ts:86-156 | in every run the content is the fold of the successful updaters in strictly increasing version order |
| TodoRuns.SuccessMeansAppliedOnce | src/core/todo/todo-manager.ts:158-221 | a client gets true if and only if its updater was applied, and then exactly once |
| TodoClients.RetriesFiveTimes | src/core/todo/todo-manager.ts:158-221 | over every run a retry loop's reads and tries left make five; it has returned false if and only if five reads ended in conflicts, and after fewer conflicts it can read again |
| TodoClients.DirectUpdateGivesUpAtOnce | src/core/todo/todo-manager.ts:86-123 | over every run a direct update does not read and returns false if and only if it met its one conflict |
| TodoClients.ClientsExpectWhatTheyRead | src/core/todo/todo-manager.ts:86-221 | over every run a client expects the version it read last or was called with, and applies the updater it was called with |
| TodoClients.FirstComeFirstServed | src/core/todo/todo-manager.ts:86-104 | in every run updates end in the order in which they were called, and the others wait in that order |
| TodoRuns.OnlySuccessChangesContent | src/core/todo/todo-manager.ts:117-148 | content changes only in the holder's successful rename, on the version it expected |
| TodoRuns.VersionPinsContent | src/core/todo/todo-manager.ts:53-76 | outside a pending rename an unchanged version means an unchanged content |
| TodoRuns.ContentIsPinnedExactly | src/core/todo/todo-manager.ts:53-143 | every continuation that finds the same version finds the same content if and only if no rename is pending or the pending one changes nothing |
| TodoRuns.SomeReadIsNotPinned | src/core/todo/todo-manager.ts:132-143 | from any files, an update that changes the content reaches a state with the new version and the old content, in which a read is not pinned |
| TodoRuns.PairIsPinnedExactly | src/core/todo/todo-manager.ts:53-76 | of a content read first and a version read later, finding that version again means finding that content if and only if the content is unchanged at the second read and no rename is pending there or the pending one changes nothing |
| TodoRuns.SomePairIsNotPinned | src/core/todo/todo-manager.ts:53-143 | from any files, an update that changes the content and falls between the two reads pairs the old content with the new version, no rename pending at either read |
| TodoRuns.HolderFinishes | src/core/todo/todo-manager.ts:92-104 | whatever fails, the holder passes the mutex on after at most fifteen operations |
| TodoRuns.StepsRefineUpdate | src/core/todo/todo-manager.ts:107-156 | the small steps under the mutex do exactly what the update does in one go |
| SessionPool.SessionPool.AcquireIdle | src/core/agents/session-pool.ts:85-100 | marks and returns the first idle session below its reuse maximum, null if there is none |
| SessionPool.SessionPool.AddSession | src/core/agents/session-pool.ts:294-313 | the new session object enters both indexes |
| SessionPool.SessionPool.DeleteSession | src/core/agents/session-pool.ts:316-333 | the session leaves both indexes, and an emptied agent list goes with it |
| SessionPool.SessionPool.BeginReleaseOf | src/core/agents/session-pool.ts:110-147 | retires a worn or old session, else makes room for it, up to the first await |
| SessionPool.SessionPool.MakeRoomFor | src/core/agents/session-pool.ts:130-144 | deletes the least recently used idle session exactly when the agent has as many as it may |
| SessionEvictions.ReleaseDeletesExactly | src/core/agents/session-pool.ts:110-147 | a release deletes exactly the released session if worn out, else exactly the first of the agent's least recently used idle sessions if they number at least the maximum and one, else none |
| SessionEvictions.EveryReleaseDeletesExactly | src/core/agents/session-pool.ts:110-147 | the same at every moment of every run |
| SessionPool.SessionPool.OldestOf | src/core/agents/session-pool.ts:137-139 | the first of the least recently used sessions |
| SessionPool.SessionPool.EndReleaseOf | src/core/agents/session-pool.ts:146-149 | the session object becomes idle, also if it was deleted meanwhile |
| SessionPool.SessionPool.CleanUpOne | src/core/agents/session-pool.ts:198-206 | deletes an idle session that timed out, and only such a one |
| SessionPool.SessionPool.Clear | src/core/agents/session-pool.ts:234-235 | both indexes are empty |
| SessionPool.DeleteKeepsConsistent | src/core/agents/session-pool.ts:316-333 | deletion removes exactly one session from both indexes and keeps them in agreement |
| SessionPool.AddKeepsConsistent | src/core/agents/session-pool.ts:306-311 | adding a fresh session keeps the indexes in agreement |
| SessionPool.FirstAvailableIsFirst | src/core/agents/session-pool.ts:89 | the found session is the first in the list that is idle and below the maximum; none is found only if none is |
| SessionPool.CleanUpRemovesTheStale | src/core/agents/session-pool.ts:194-213 | an undisturbed cleanup leaves exactly the sessions in use and those used in time, in agreeing indexes |
| SessionPoolRuns.IndexesAgree | src/core/agents/session-pool.ts:80-341 | in every run both indexes hold the same sessions, each in its own agent's list, none over its reuse maximum |
| SessionPoolRuns.HandedOutExclusively | src/core/agents/session-pool.ts:80-105 | a session is handed out only if nobody holds it or is still releasing it, and to its own agent |
| SessionEvictions.FirstCreatedIsReused | src/core/agents/session-pool.ts:85-100 | in every run an acquisition hands out the first created of the agent's idle sessions below the reuse maximum, and none if and only if there is none |
| SessionEvictions.SessionsRemember | src/core/agents/session-pool.ts:85-313 | in every run a pooled session has the agent and time of its creation, the time it was last handed out and the number of its hand-outs |
| SessionPoolRuns.StaleSessionsGo | src/core/agents/session-pool.ts:194-213 | a session that is stale when a cleanup starts is gone once its round is over, whatever happens between the rounds, unless it is handed out in the meantime |
| SessionPoolRuns.IdleSessionsAreBounded | src/core/agents/session-pool.ts:110-150 | with at most k overlapping releases an agent has at most max(maximum, 1) - 1 + k idle sessions |
| SessionPoolRuns.PoolSizeIsRespected | src/core/agents/session-pool.ts:110-150 | without overlap and with a maximum of at least 1 the maximum is respected |
| SessionLimitRuns.ReleaseExceedsExactly | src/core/agents/session-pool.ts:110-148 | a release takes an agent beyond its maximum of idle and returning sessions if and only if they number the maximum and another release is under way or the maximum is 0 |
| SessionLimitRuns.MaximumIsRespectedExactly | src/core/agents/session-pool.ts:80-341 | the idle and returning sessions together stay within the maximum at every moment of a run if and only if no such release occurs |
| SessionLimitRuns.IdleExceedsExactly | src/core/agents/session-pool.ts:80-341 | a step takes the idle sessions of an agent beyond the maximum if and only if it ends a release of a session still pooled for it while as many are idle as allowed |
| SessionLimitRuns.IdleMaximumIsRespectedExactly | src/core/agents/session-pool.ts:80-341 | the idle sessions alone stay within the maximum at every moment of a run if and only if no release ends that way |
| SessionLimitRuns.EndingsExceedExactly | src/core/agents/session-pool.ts:146-149 | when the releases under way end with nothing in between, the idle sessions pass the maximum if and only if idle and returning ones together did |
| SessionLimitRuns.OverlapExceedsAnyMaximum | src/core/agents/session-pool.ts:110-150 | from an empty pool, whatever the maximum, a run of n overlapping releases leaves n idle sessions |
| SessionLimitRuns.OverlapExceedsMaximum | src/core/agents/session-pool.ts:130-148 | two overlapping releases at one below the maximum end one above it |
| SessionLimitRuns.ZeroMaximumIsExceeded | src/core/agents/session-pool.ts:135-148 | with a maximum of 0 a released session stays |
| SurplusSessionRuns.BeginTakesExactly | src/core/agents/session-pool.ts:110-144 | the first stretch of a release that nobody owes keeps the flags right and takes a session from its holder if and only if it is the released one and due for retirement |
| SurplusSessionRuns.EndIsHarmlessExactly | src/core/agents/session-pool.ts:146-149 | the last stretch of such a release keeps the flags right if and only if the session is not pooled and in use, and then it changes nothing |
| SurplusSessionRuns.SessionsAreExclusiveExactly | src/core/agents/manager/task-cleaner.ts:57-73 | whoever releases what, the flags are right at every moment of a run if and only if no such release ends while its session is in use |
| SurplusSessionRuns.UndisturbedMeansExclusive | src/core/agents/session-pool.ts:80-105 | after a run without such an end a session is handed out only if nobody holds it or is still releasing it |
| SurplusSessionRuns.SessionIsSharedByTwo | src/core/agents/manager/task-cleaner.ts:57-73 | a run from the empty pool after which a session released twice is handed out again while its second holder has it |
| TaskStore.Store.Create | src/core/task/store.ts:15-36 | the session's hierarchy is a single pending root |
| TaskStore.Store.AddTask | src/core/task/store.ts:48-86 | adds one pending node, appends it to its parent and group; throws exactly for an unknown session |
| TaskStore.AddingChangesExactly | src/core/task/store.ts:55-84 | an addition makes one pending node with the given fields, and changes nothing but the children of an existing parent and the group |
| TaskStore.Store.UpdateStatus | src/core/task/store.ts:91-116 | changes status, times and result of that node of that session, if both exist |
| TaskStore.FirstTimesAreKept | src/core/task/store.ts:91-116 | over every run of status changes a node keeps the time of its first start and of its first end |
| TaskStore.LastStatusAndResultStand | src/core/task/store.ts:91-116 | over every run of status changes a node has the status last given and the last result that is not empty, and keeps everything else |
| TaskStore.UpdatedIsWithStatus | src/core/task/store.ts:91-116 | times and results aside, an update is the change of status that the scheduler's runs are made of |
| TaskStore.IsComplete | src/core/task/store.ts:128-138 | true if and only if no node is pending or running |
| TaskStore.GetProgress | src/core/task/store.ts:143-166 | each counter is the number of nodes with its statuses, and the percentage is a nearest integer to the share of completed and failed ones |
| TaskStore.CountersAddUp | src/core/task/store.ts:149-165 | the counters add up to the total if and only if no task ended in error or timeout |
| TaskStore.AddingKeepsTree | src/core/task/store.ts:48-76 | adding below an existing node keeps children lists the exact inverse of parent links |
| TaskStore.StatusKeepsTree | src/core/task/store.ts:91-116 | a status change keeps the tree |
| TaskStore.EveryChainReachesRoot | src/core/task/store.ts:54-76 | every chain of parents reaches the root |
| TaskParser.NearestSmallerIsNearest | src/core/task/parser.ts:29-34 | the parent line has a smaller level and no line between has one |
| TaskParser.NearestIsUnique | src/core/task/parser.ts:29-34 | that property determines the parent line |
| TaskParser.LevelsIncrease | src/core/task/parser.ts:16-63 | the levels on the stack are strictly increasing |
| TaskParser.PopLarger | src/core/task/parser.ts:30-32 | popping leaves a smaller level on top and no smaller line above it |
| TaskParser.TopIsParent | src/core/task/parser.ts:34 | the top of the popped stack is the nearest smaller line, the root if there is none |
| TaskParser.PushKeepsStack | src/core/task/parser.ts:63 | pushing the accepted line keeps the stack a chain of nearest smaller lines |
| TaskParser.AddedLineIsParsed | src/core/task/parser.ts:54-61 | adding the line below its parent extends the parsed tree by that line |
| TaskParser.ParseFromText | src/core/task/parser.ts:29-67 | the loop builds the tree in which every accepted line hangs under its nearest earlier smaller line, with each parallel group holding exactly its tasks in order |
| TaskScheduler.ExecutableAmong | src/core/task/scheduler.ts:12-40 | exactly the pending tasks whose dependencies are completed and whose parent runs or is completed |
| TaskScheduler.GetNextTasks | src/core/task/scheduler.ts:12-40 | the loop returns those tasks in the order of the nodes |
| TaskScheduler.OfferedExactly | src/core/task/scheduler.ts:12-40 | a task is offered if and only if it is pending, its dependencies are all completed and its parent, if any, is running or completed |
| TaskScheduler.OfferedInOrder | src/core/task/scheduler.ts:18-40 | tasks are offered in the order in which they were added |
| TaskScheduler.StartsAreSafe | src/core/task/scheduler.ts:12-40 | in every run no started task has an uncompleted dependency or a pending ancestor |
| TaskScheduler.NoDeadlock | src/core/task/scheduler.ts:12-40 | if nothing failed and nothing runs, a pending task means that some task can start |
| TaskScheduler.StuckBehindFailure | src/core/task/scheduler.ts:12-40 | if nothing runs and nothing can start, every pending task waits through a chain for a failed one |
| TaskScheduler.EachStepCounts | src/core/task/store.ts:91-138 | every start or finish uses up one of at most two steps per task |
| TaskScheduler.RunsComplete | src/core/task/store.ts:128-138 | from a given hierarchy, when nothing fails every run takes at most two steps per task and can go on until all are completed |
| TaskScheduler.RunKeepsRequirements | src/core/task/store.ts:48-86 | over every run with additions, every parent and dependency was added before the task that requires it |
| TaskScheduler.EveryRunCanComplete | src/core/task/scheduler.ts:12-40 | in every run from a new hierarchy, with additions at any time, starts, finishes and cancellations number at most two per task, and when nothing fails the run can go on until all are completed |
| WorkPool.EveryMoment | src/core/queue/work-pool.ts:41-49 | at every moment of every schedule at most min(concurrency, n) calls are in flight, calls went from the last index down without repetition, and steps taken plus left are 2n plus the workers |
| WorkPool.EveryScheduleEndsInOrder | src/core/queue/work-pool.ts:33-52 | once all workers have returned, under whatever schedule, the results are the in-order map and each index was called once; without a worker all results are holes |
| WorkPool.WorkPoolWithResults | src/core/queue/work-pool.ts:33-52 | the loop performs a possible schedule to its end and returns its results |
| WorkPool.PopIsConsistent | src/core/queue/work-pool.ts:43-46 | a worker's pop keeps every index pending, in flight or done, exactly one of them |
| WorkPool.ResolveIsConsistent | src/core/queue/work-pool.ts:46 | a resolved call stores its result at its own index and keeps the partition |
| WorkPool.InFlightIsBounded | src/core/queue/work-pool.ts:41-48 | at most as many indices are in flight as there are workers |
| WorkPool.ProcessBatches | src/core/queue/work-pool.ts:57-71 | the loop concatenates the results of consecutive batches |
| WorkPool.BatchedByBatches | src/core/queue/work-pool.ts:57-71 | the function is called on consecutive batches of full size, but for the last, and the results follow one another |
| WorkPool.BatchSizeIsIrrelevant | src/core/queue/work-pool.ts:57-71 | for a function that works item by item every batch size gives the result of one call on all items |
| JsoncComments.StripComments | crates/orchestrator-core/src/config/loader.rs:87-145 | the character loop computes the comment-stripping function |
| JsoncComments.SkipLine | crates/orchestrator-core/src/config/loader.rs:114-123 | stops before the newline that ends a line comment |
| JsoncComments.SkipBlock | crates/orchestrator-core/src/config/loader.rs:124-139 | stops after the first closing, or at the end |
| JsoncComments.StripsExactlyComments | crates/orchestrator-core/src/config/loader.rs:87-145 | on any rendering of string, plain and comment tokens exactly the comment tokens disappear, strings verbatim |
| JsoncComments.EveryTextIsARendering | crates/orchestrator-core/src/config/loader.rs:87-145 | every text is such a rendering, so the law covers all inputs |
| JsoncComments.WithoutCommentsIsWellFormed | crates/orchestrator-core/src/config/loader.rs:87-145 | removing comments never makes two plain characters read as a new comment |
| JsoncComments.StripIsIdempotent | crates/orchestrator-core/src/config/loader.rs:87-145 | stripping twice is stripping once |
| ProgressTracker.JsonTodosIsInjective | src/core/loop/progress-tracker.ts:84 | different lists have different JSON texts |
| ProgressTracker.EqualSnapshotsMeanEqualTodos | src/core/loop/progress-tracker.ts:61-85 | equal snapshots always mean the same multiset of todos |
| ProgressTracker.SnapshotsAreCanonical | src/core/loop/progress-tracker.ts:61-85 | without a sentinel clash snapshots are equal if and only if the multisets are |
| ProgressTracker.OrderMattersExactlyOnClashes | src/core/loop/progress-tracker.ts:69-82 | all permutations of a list have one snapshot if and only if the list holds no sentinel clash |
| ProgressTracker.SentinelIdChangesSnapshot | src/core/loop/progress-tracker.ts:70-71 | a concrete pair of todos whose order shows in the snapshot |
| ProgressTracker.Compare | src/core/loop/progress-tracker.ts:126-217 | the new state and the report of a check, in every branch |
| ProgressTracker.ProgressTracker.TrackProgress | src/core/loop/progress-tracker.ts:121-218 | one session's state is replaced by the checked one, all others stay |
| ProgressTracker.ProgressTracker.MarkInjectionPerformed | src/core/loop/progress-tracker.ts:220-223 | only the awaiting flag of that session is set, creating the session if needed |
| ProgressTracker.ProgressTracker.ResetProgress | src/core/loop/progress-tracker.ts:106-115 | a known session returns to the initial state, an unknown one is not created |
| ProgressTracker.ProgressTracker.ClearSession | src/core/loop/progress-tracker.ts:117-119 | forgets exactly that session |
| ProgressTracker.ProgressTracker.IsStagnant | src/core/loop/progress-tracker.ts:225-229 | true if and only if the session is known and its count reaches the threshold |
| ProgressTracker.ProgressTracker.GetStagnationCount | src/core/loop/progress-tracker.ts:231-234 | the session's count, 0 for an unknown session |
| ProgressTracker.Run | src/core/loop/progress-tracker.ts:106-234 | after any calls for any sessions, each session's entry is what its own calls alone lead to |
| ProgressTracker.StagnationIsCounted | src/core/loop/progress-tracker.ts:106-223 | after every trace the count is the number of checks after an injection without progress since the last restart |
| ProgressTracker.StagnantExactly | src/core/loop/progress-tracker.ts:225-229 | after every trace a session is stagnant if and only if it was checked or prompted since it was last cleared and as many checks as the threshold, after an injection, found no progress since the last restart |
| ProgressTracker.ReportsExactlyProgress | src/core/loop/progress-tracker.ts:137-151 | a check reports progress if and only if fewer todos are incomplete or the multiset of todos differs from the last one seen |
| ProgressReports.ReportsExactly | src/core/loop/progress-tracker.ts:137-217 | after every trace the source, the count compared with, and on progress whether three or more checks had stagnated, are what the checks of the trace say |
| ProgressReports.ReportCounts | src/core/loop/progress-tracker.ts:152-217 | the reported count is the number of stagnant checks with this one |
| ProgressReports.CompletedIsKept | src/core/loop/progress-tracker.ts:87-160 | the tracker keeps the number of completed todos of the last list given |
| ProgressReports.SnapshotListsInOrder | src/core/loop/progress-tracker.ts:61-85 | a snapshot is the text of the todos in the order of id, where a missing one counts as U+FFFF, content, priority and status |
| ProgressReports.EscapingIsUndone | src/core/loop/progress-tracker.ts:84 | reading back what is written inside a JSON string gives the string |
| MemoryManager.MemoryManager.Add | src/core/memory/memory-manager.ts:41-64 | the level becomes the sorted list with the entry, pruned, and the index follows |
| MemoryManager.MemoryManager.Prune | src/core/memory/memory-manager.ts:109-121 | the loop leaves the longest fitting prefix and unindexes what it drops |
| MemoryManager.MemoryManager.ClearTaskMemory | src/core/memory/memory-manager.ts:126-132 | empties the task level and its part of the index only |
| MemoryManager.FitIsLongest | src/core/memory/memory-manager.ts:113-120 | a prefix fits the budget if and only if it is no longer than what is kept |
| MemoryManager.EmptiedByOversizedFirst | src/core/memory/memory-manager.ts:113-120 | pruning empties a level if and only if its first entry alone exceeds the budget |
| MemoryManager.RunKeepsConsistent | src/core/memory/memory-manager.ts:41-132 | after every run each level is sorted and within budget and the index names exactly the stored entries |
| MemoryManager.TopEntriesSurvive | src/core/memory/memory-manager.ts:41-132 | after every run a level starts with the longest fitting prefix of everything added since its last clear, sorted |
| MemoryRanks.LevelsAreRanked | src/core/memory/memory-manager.ts:56 | after every run the entries of a level go down in importance, and down in time within an importance |
| MemoryRanks.TiesKeepArrival | src/core/memory/memory-manager.ts:56 | after every run entries of the same importance and time stand in the order in which they were added |
| MemoryRanks.StepGivesUpLowest | src/core/memory/memory-manager.ts:53-121 | after every run an add or prune gives up exactly what does not fit the level's 8000, 20000, 40000 or 80000 characters, the least important first and the oldest first among equally important entries |
| MemoryRanks.LevelsAreWithinBudget | src/core/memory/memory-manager.ts:109-121 | at every moment every level holds at most that many characters |
| MemoryRanks.ClearEmptiesTasks | src/core/memory/memory-manager.ts:126-132 | a clear empties the task level and leaves the others alone |
| MemoryOrder.AddsLeaveAll | src/core/memory/memory-manager.ts:41-64 | a run of adds to one level leaves there the entries joined and pruned one by one |
| MemoryOrder.OrderIsIrrelevantExactly | src/core/memory/memory-manager.ts:56-61 | every order of the same adds of different entries, ties included, leaves the same level if and only if nothing else would fit behind the longest fitting prefix of the ranking and the entries of that prefix tie with none but entries that exceed the budget alone |
| MemoryOrder.TopRemains | src/core/memory/memory-manager.ts:56-61 | under that condition what remains, in every order, is that prefix |
| MemoryOrder.RunsAgreeExactly | src/core/memory/memory-manager.ts:41-121 | the same for the runs of the manager at every level |
| MemoryOrder.OrderOfAddsMatters | src/core/memory/memory-manager.ts:56-61 | three entries of which two orders leave different levels |

## Left out

- WorkerPool.WorkerPool.Start: in the original `start` also runs the first stretch of every loop, and a resolved executor runs on into the next one; here each is a step of its own that may be delayed, so the runs include those of the original and more.
- TaskStore.GetProgress: of two nearest integers the original takes the one that its double arithmetic falls on, such as 14 for 29 of 200; the contract leaves that choice open.
- MemoryOrder.OrderIsIrrelevantExactly: for entries that are all different, as the fresh identifiers of the original make them.
- TodoRuns.VersionPinsContent: reads are assumed sound; a failed read, which yields version 0 and an empty or stale content (src/core/todo/todo-manager.ts:71-79), is not modelled, and a failed rename is taken to leave the todo file alone.
- ConcurrencyRuns.SlotsAreAccountedFor: runs in which the key's limit stays finite and each grant is released at most once; switching a key between finite and unlimited while slots are held loses count of them in the original.
- ConcurrencyRuns.WaitersMeanFull: after a raise of the limit waiters are admitted only by later releases, so no claim is made across raises.
- SessionPoolRuns.HandedOutExclusively: for runs with one release per holder; what any further release does is in `SurplusSessionRuns`.
- HookRegistry.RegistrationsSortHistory: for different names; with repeated names the claim is false, and `HookHistories.HistoryIsOrderedExactly` says when the list is in priority order.
- ProgressTracker.StagnationIsCounted: `localeCompare` is taken to be a total order in which only equal strings tie, and strings hold Unicode scalar values, so the escapes of lone surrogates do not occur.
- HookRegistry.OnlyForcedInversions: for registrations with different names; `HookHistories.SortForcesInversions` covers repeated ones.
- WorkStealingDeque.Run: an initial capacity of 0, which makes every index computation NaN in the original.
- TaskParser.ParseFromText: starts from accepted lines with their levels and metadata; the regular expression and the metadata syntax (where a list in `depends:` is cut at its first comma, src/core/task/parser.ts:42-47) are not modelled, and identifiers are assumed fresh.
- MemoryManager.MemoryManager.Add: takes the trimmed content, the identifier and the timestamp as inputs; importances are real numbers.
- SessionPool.CleanUpRemovesTheStale: the rounds of one cleanup without other stretches in between; `SessionPoolRuns.StaleSessionsGo` has them in between.
- The four hook lists behave alike, so one is modelled; running the hooks, and priorities that are NaN, are not.
- A default limit of 0 is not unlimited, unlike every other level of configuration (src/core/agents/concurrency.ts:98); the model follows the code.
- System-wide limits on running tasks: the launcher and the poller release the same key twice.
- `updateItem` returns true when nothing matched: updaters are functions that may fail, their text matching is not modelled.
- Task hierarchies, waiters and todo states that the original updates through shared objects are values in maps here, so aliasing of a returned node or state is not captured; session objects and deques are shared objects as in the original.
- Rejections of the mapped function in `workPoolWithResults` and `workPool`, which has no results to order.
- `strip_trailing_commas`, a regular expression that is not aware of strings (crates/orchestrator-core/src/config/loader.rs:152-155), and `merge_configs`.
- The pruning timer of the progress tracker, which does what `clearSession` does, and the computed but unused `hasCompletedMoreTodos`.
- `MemoryManager.import`, which neither sorts nor prunes, `getContext`, and `getParallelBatch`, which ignores dependencies.
- Busy and idle times, logs, health checks, session statistics and compaction calls to the server.
- Pending-task tracking across launcher, poller, cleaner and resumer, and the compaction guard: their obvious invariants do not hold of the code.
- The command-line tools, process pool, web tools, installers, notifications and prompt texts: input and output around the modelled logic.
