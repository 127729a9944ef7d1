/** The dependency scheduler of src/core/task/scheduler.ts and the runs that it drives. */
module TaskScheduler {
  import opened Prelude
  import opened TaskStore

  predicate HasStatus(h: Hierarchy, id: string, status: Status) {
    id in h.nodes && h.nodes[id].status == status
  }

  predicate DepsCompleted(h: Hierarchy, deps: seq<string>) {
    forall d :: d in deps ==> HasStatus(h, d, Completed)
  }

  predicate ParentReady(h: Hierarchy, parent: Option<string>) {
    Truthy(parent) ==> HasStatus(h, parent.value, Running) || HasStatus(h, parent.value, Completed)
  }

  /** Pending, all dependencies completed, and the parent, if any, running or completed. */
  predicate Executable(h: Hierarchy, id: string) {
    HasStatus(h, id, Pending) && DepsCompleted(h, h.nodes[id].dependsOn) && ParentReady(h, h.nodes[id].parent)
  }

  /** The executable ones among `ids`, in order. */
  function ExecutableAmong(h: Hierarchy, ids: seq<string>): (r: seq<string>)
    ensures forall id :: id in r <==> id in ids && Executable(h, id)
  {
    if ids == [] then []
    else
      assert ids == ids[..|ids| - 1] + [ids[|ids| - 1]];
      ExecutableAmong(h, ids[..|ids| - 1]) + (if Executable(h, ids[|ids| - 1]) then [ids[|ids| - 1]] else [])
  }

  lemma OneMoreTask(h: Hierarchy, i: nat)
    requires i < |h.order|
    ensures ExecutableAmong(h, h.order[..i + 1])
         == ExecutableAmong(h, h.order[..i]) + (if Executable(h, h.order[i]) then [h.order[i]] else [])
  {
    assert h.order[..i + 1][..i] == h.order[..i];
  }

  method GetNextTasks(h: Hierarchy) returns (executable: seq<string>)
    requires Keyed(h)
    ensures executable == ExecutableAmong(h, h.order)
  {
    executable := [];
    for i := 0 to |h.order|
      invariant executable == ExecutableAmong(h, h.order[..i])
    {
      var id := h.order[i];
      OneMoreTask(h, i);
      var node := h.nodes[id];
      if node.status == Pending {
        var depsComplete := AllCompleted(h, node.dependsOn);
        var parentReady := true;
        if Truthy(node.parent) {
          parentReady := HasStatus(h, node.parent.value, Running) || HasStatus(h, node.parent.value, Completed);
        }
        if depsComplete && parentReady {
          executable := executable + [id];
        }
      }
    }
    assert h.order[..|h.order|] == h.order;
  }

  /** `dependsOn.every(...)` */
  method AllCompleted(h: Hierarchy, deps: seq<string>) returns (all: bool)
    ensures all == DepsCompleted(h, deps)
  {
    for i := 0 to |deps|
      invariant forall k :: 0 <= k < i ==> HasStatus(h, deps[k], Completed)
    {
      if deps[i] !in h.nodes || h.nodes[deps[i]].status != Completed {
        assert deps[i] in deps && !HasStatus(h, deps[i], Completed);
        return false;
      }
    }
    all := true;
  }

  /** Which tasks are offered: the pending ones of which every dependency is completed and the parent, if they have
      one, is running or completed. */
  lemma OfferedExactly(h: Hierarchy, id: string)
    requires Keyed(h)
    ensures id in ExecutableAmong(h, h.order) <==>
      && id in h.nodes && h.nodes[id].status == Pending
      && (forall d :: d in h.nodes[id].dependsOn ==> d in h.nodes && h.nodes[d].status == Completed)
      && (h.nodes[id].parent == None || h.nodes[id].parent == Some("") ||
          (h.nodes[id].parent.value in h.nodes &&
           (h.nodes[h.nodes[id].parent.value].status == Running || h.nodes[h.nodes[id].parent.value].status == Completed)))
  {
    assert id in h.order <==> id in h.nodes;
    if id in h.nodes {
      assert DepsCompleted(h, h.nodes[id].dependsOn)
        <==> forall d :: d in h.nodes[id].dependsOn ==> d in h.nodes && h.nodes[d].status == Completed;
    }
  }

  ghost predicate AddedBefore(ids: seq<string>, x: string, y: string) {
    exists i, j :: 0 <= i < j < |ids| && ids[i] == x && ids[j] == y
  }

  ghost predicate InOrderOf(ids: seq<string>, r: seq<string>) {
    forall a, b :: 0 <= a < b < |r| ==> AddedBefore(ids, r[a], r[b])
  }

  lemma StaysBefore(ids: seq<string>, x: string, y: string, last: string)
    requires AddedBefore(ids, x, y)
    ensures AddedBefore(ids + [last], x, y)
  {
    var i, j :| 0 <= i < j < |ids| && ids[i] == x && ids[j] == y;
    assert (ids + [last])[i] == x && (ids + [last])[j] == y;
  }

  lemma OneMoreInOrder(ids: seq<string>, r: seq<string>, last: string, more: seq<string>)
    requires InOrderOf(ids, r) && (forall x :: x in r ==> x in ids) && (more == [] || more == [last])
    ensures InOrderOf(ids + [last], r + more)
  {
    var longer := ids + [last];
    forall a, b | 0 <= a < b < |r + more| ensures AddedBefore(longer, (r + more)[a], (r + more)[b]) {
      if b < |r| {
        StaysBefore(ids, r[a], r[b], last);
      } else {
        assert r[a] in r;
        var i :| 0 <= i < |ids| && ids[i] == r[a];
        assert longer[i] == r[a] && longer[|ids|] == last;
      }
    }
  }

  /** They are offered in the order in which they were added. */
  lemma {:induction false} OfferedInOrder(h: Hierarchy, ids: seq<string>)
    ensures InOrderOf(ids, ExecutableAmong(h, ids))
  {
    if ids != [] {
      var front, last := ids[..|ids| - 1], ids[|ids| - 1];
      OfferedInOrder(h, front);
      assert ids == front + [last];
      OneMoreInOrder(front, ExecutableAmong(h, front), last, if Executable(h, last) then [last] else []);
    }
  }

  // ---------------------------------------------------------------- requirements

  /** `id` names `r` as its parent or as a dependency. */
  predicate Requires(h: Hierarchy, id: string, r: string) {
    && id in h.nodes
    && (r in h.nodes[id].dependsOn || (Truthy(h.nodes[id].parent) && h.nodes[id].parent.value == r))
  }

  /** Every parent and every dependency names a node that was added earlier. */
  ghost predicate RequirementsFirst(h: Hierarchy)
    requires Keyed(h)
  {
    forall id, r :: Requires(h, id, r) ==> r in h.nodes && Position(h, r) < Position(h, id)
  }

  /** A pending task that nothing keeps from starting, except possibly a failure behind it. */
  lemma BlockedByRequirement(h: Hierarchy, id: string) returns (r: string)
    requires Keyed(h) && RequirementsFirst(h) && HasStatus(h, id, Pending) && !Executable(h, id)
    requires forall x :: x in h.nodes ==> h.nodes[x].status != Running
    ensures Requires(h, id, r) && r in h.nodes && h.nodes[r].status != Completed && h.nodes[r].status != Running
  {
    if d :| d in h.nodes[id].dependsOn && !HasStatus(h, d, Completed) {
      r := d;
      assert Requires(h, id, r);
    } else {
      r := h.nodes[id].parent.value;
      assert Requires(h, id, r);
    }
  }

  /** `chain` leads from a task through its requirements to one that ended without completing. */
  ghost predicate LeadsToFailure(h: Hierarchy, chain: seq<string>) {
    && |chain| > 1
    && (forall i :: 0 <= i < |chain| - 1 ==> Requires(h, chain[i], chain[i + 1]))
    && chain[|chain| - 1] in h.nodes
    && !Unfinished(h.nodes[chain[|chain| - 1]].status) && h.nodes[chain[|chain| - 1]].status != Completed
  }

  /** When nothing runs and nothing can be started, every pending task waits, directly or through
      other tasks, for one that failed, was cancelled, or ended in an error or a timeout. */
  lemma {:induction false} StuckBehindFailure(h: Hierarchy, id: string) returns (chain: seq<string>)
    requires Keyed(h) && RequirementsFirst(h) && HasStatus(h, id, Pending)
    requires forall x :: x in h.nodes ==> h.nodes[x].status != Running
    requires ExecutableAmong(h, h.order) == []
    ensures LeadsToFailure(h, chain) && chain[0] == id
    decreases Position(h, id)
  {
    var r := BlockedByRequirement(h, id);
    if h.nodes[r].status == Pending {
      var rest := StuckBehindFailure(h, r);
      chain := [id] + rest;
    } else {
      chain := [id, r];
    }
  }

  /** No deadlock: if nothing has failed, a pending task with nothing running can be started. */
  lemma NoDeadlock(h: Hierarchy, id: string)
    requires Keyed(h) && RequirementsFirst(h) && HasStatus(h, id, Pending)
    requires forall x :: x in h.nodes ==> h.nodes[x].status == Pending || h.nodes[x].status == Completed
    ensures ExecutableAmong(h, h.order) != []
  {
    if ExecutableAmong(h, h.order) == [] {
      var chain := StuckBehindFailure(h, id);
    }
  }

  // ---------------------------------------------------------------- runs

  /** Tasks are added, started from `getNextTasks` only, and end one way or another. */
  datatype Event =
    | Add(id: string, input: TaskInput)
    | Start(id: string)
    | Finish(id: string, status: Status)
    | Cancel(id: string)

  /** A hierarchy and the tasks that have ever been started. */
  datatype World = World(h: Hierarchy, started: set<string>)

  ghost predicate Enabled(w: World, e: Event) {
    match e
    case Add(id, input) =>
      && id !in w.h.nodes && Truthy(input.parentId) && input.parentId.value in w.h.nodes
      && forall d :: d in input.dependsOn ==> d in w.h.nodes
    case Start(id) => id in ExecutableAmong(w.h, w.h.order)
    case Finish(id, status) => HasStatus(w.h, id, Running) && !Unfinished(status)
    case Cancel(id) => HasStatus(w.h, id, Pending) || HasStatus(w.h, id, Running)
  }

  function Step(w: World, e: Event): World {
    match e
    case Add(id, input) => w.(h := Added(w.h, id, input))
    case Start(id) => World(WithStatus(w.h, id, Running), w.started + {id})
    case Finish(id, status) => w.(h := WithStatus(w.h, id, status))
    case Cancel(id) => w.(h := WithStatus(w.h, id, Cancelled))
  }

  ghost predicate Possible(w: World, events: seq<Event>)
    decreases |events|
  {
    events == [] || (Enabled(w, events[0]) && Possible(Step(w, events[0]), events[1..]))
  }

  function After(w: World, events: seq<Event>): World
    decreases |events|
  {
    if events == [] then w else After(Step(w, events[0]), events[1..])
  }

  /** A started task is past `Pending`, its dependencies are completed and its parent was started. */
  ghost predicate Proper(h: Hierarchy, started: set<string>, id: string) {
    && id in h.nodes && h.nodes[id].status != Pending
    && DepsCompleted(h, h.nodes[id].dependsOn)
    && (Truthy(h.nodes[id].parent) ==> h.nodes[id].parent.value in started)
  }

  /** Every started task is proper; the others are pending or were cancelled before they started. */
  ghost predicate StartedProperly(w: World) {
    && (forall id :: id in w.started ==> Proper(w.h, w.started, id))
    && (forall id :: id in w.h.nodes && id !in w.started ==>
          w.h.nodes[id].status == Pending || w.h.nodes[id].status == Cancelled)
  }

  ghost predicate Invariant(w: World) {
    IsTree(w.h) && StartedProperly(w)
  }

  /** Links stay, what is completed stays completed, and nothing becomes pending again. */
  ghost predicate Evolves(h: Hierarchy, g: Hierarchy) {
    forall x :: x in h.nodes ==>
      && x in g.nodes && g.nodes[x].parent == h.nodes[x].parent && g.nodes[x].dependsOn == h.nodes[x].dependsOn
      && (h.nodes[x].status == Completed ==> g.nodes[x].status == Completed)
      && (h.nodes[x].status != Pending ==> g.nodes[x].status != Pending)
  }

  lemma AddKeepsStarted(w: World, id: string, input: TaskInput)
    requires StartedProperly(w) && Enabled(w, Add(id, input))
    ensures StartedProperly(Step(w, Add(id, input)))
  {
    AddingTouchesTwoNodes(w.h, id, input);
    var g := Added(w.h, id, input);
    assert Evolves(w.h, g);
    forall x | x in w.started ensures Proper(g, w.started, x) {
    }
  }

  lemma StartKeepsStarted(w: World, id: string)
    requires StartedProperly(w) && Executable(w.h, id)
    ensures StartedProperly(Step(w, Start(id)))
  {
    var g := WithStatus(w.h, id, Running);
    forall x | x in w.started + {id} ensures Proper(g, w.started + {id}, x) {
      if x !in w.started {
        forall d | d in g.nodes[id].dependsOn ensures HasStatus(g, d, Completed) {
          assert HasStatus(w.h, d, Completed);
        }
      }
    }
  }

  lemma EndKeepsStarted(w: World, id: string, status: Status)
    requires StartedProperly(w) && !Unfinished(status)
    requires HasStatus(w.h, id, Running) || (HasStatus(w.h, id, Pending) && status == Cancelled)
    ensures StartedProperly(World(WithStatus(w.h, id, status), w.started))
  {
    var g := WithStatus(w.h, id, status);
    forall x | x in w.started ensures Proper(g, w.started, x) {
    }
  }

  lemma StepKeepsInvariant(w: World, e: Event)
    requires Invariant(w) && Enabled(w, e)
    ensures Invariant(Step(w, e))
  {
    match e
    case Add(id, input) =>
      AddingKeepsTree(w.h, id, input);
      AddKeepsStarted(w, id, input);
    case Start(id) =>
      StatusKeepsTree(w.h, id, Running);
      StartKeepsStarted(w, id);
    case Finish(id, status) =>
      StatusKeepsTree(w.h, id, status);
      EndKeepsStarted(w, id, status);
    case Cancel(id) =>
      StatusKeepsTree(w.h, id, Cancelled);
      EndKeepsStarted(w, id, Cancelled);
  }

  lemma {:induction false} RunKeepsInvariant(w: World, events: seq<Event>)
    requires Invariant(w) && Possible(w, events)
    ensures Invariant(After(w, events))
    decreases |events|
  {
    if events != [] {
      StepKeepsInvariant(w, events[0]);
      RunKeepsInvariant(Step(w, events[0]), events[1..]);
    }
  }

  ghost predicate HasAncestor(h: Hierarchy, id: string, a: string)
    requires Keyed(h) && ParentsFirst(h) && id in h.nodes
    decreases Position(h, id)
  {
    Truthy(h.nodes[id].parent) &&
    (ParentComesEarlier(h, id);
     h.nodes[id].parent.value == a || HasAncestor(h, h.nodes[id].parent.value, a))
  }

  lemma {:induction false} AncestorsWereStarted(w: World, id: string, a: string)
    requires Invariant(w) && id in w.started && HasAncestor(w.h, id, a)
    ensures a in w.started
    decreases Position(w.h, id)
  {
    assert Proper(w.h, w.started, id);
    ParentComesEarlier(w.h, id);
    if w.h.nodes[id].parent.value != a {
      AncestorsWereStarted(w, w.h.nodes[id].parent.value, a);
    }
  }

  /** In every run of a new hierarchy, no started task ever has an uncompleted dependency or a
      pending ancestor. */
  lemma StartsAreSafe(rootId: string, description: string, events: seq<Event>, id: string)
    requires Possible(World(NewHierarchy(rootId, description), {}), events)
    requires id in After(World(NewHierarchy(rootId, description), {}), events).started
    ensures var w := After(World(NewHierarchy(rootId, description), {}), events);
            && IsTree(w.h) && id in w.h.nodes
            && DepsCompleted(w.h, w.h.nodes[id].dependsOn)
            && (forall a :: HasAncestor(w.h, id, a) ==> a in w.h.nodes && w.h.nodes[a].status != Pending)
  {
    var start := World(NewHierarchy(rootId, description), {});
    NewHierarchyIsTree(rootId, description);
    RunKeepsInvariant(start, events);
    var w := After(start, events);
    assert Proper(w.h, w.started, id);
    forall a | HasAncestor(w.h, id, a) ensures a in w.h.nodes && w.h.nodes[a].status != Pending {
      AncestorsWereStarted(w, id, a);
      assert Proper(w.h, w.started, a);
    }
  }

  // ---------------------------------------------------------------- completion

  /** Two steps are left for a pending task and one for a running one. */
  function StepsLeft(h: Hierarchy, ids: seq<string>): nat {
    if ids == [] then 0
    else StepsLeft(h, ids[..|ids| - 1]) + StepsOf(h, ids[|ids| - 1])
  }

  function StepsOf(h: Hierarchy, id: string): nat {
    if HasStatus(h, id, Pending) then 2 else if HasStatus(h, id, Running) then 1 else 0
  }

  function Weight(s: Status): nat {
    match s
    case Pending => 2
    case Running => 1
    case _ => 0
  }

  lemma StepsOfAfterStatus(h: Hierarchy, x: string, id: string, status: Status)
    requires x in h.nodes && id in h.nodes
    ensures StepsOf(h, x) == Weight(h.nodes[x].status)
    ensures StepsOf(WithStatus(h, id, status), x) == if x == id then Weight(status) else StepsOf(h, x)
  {
  }

  lemma {:induction false} StepsLeftAfterStatus(h: Hierarchy, ids: seq<string>, id: string, status: Status)
    requires NoDuplicates(ids) && id in h.nodes && forall x :: x in ids ==> x in h.nodes
    ensures StepsLeft(WithStatus(h, id, status), ids) + (if id in ids then Weight(h.nodes[id].status) else 0)
         == StepsLeft(h, ids) + (if id in ids then Weight(status) else 0)
  {
    if ids != [] {
      var front, last := ids[..|ids| - 1], ids[|ids| - 1];
      assert ids == front + [last];
      StepsLeftAfterStatus(h, front, id, status);
      StepsOfAfterStatus(h, last, id, status);
      assert last !in front;
    }
  }

  lemma {:induction false} NoStepsLeft(h: Hierarchy, ids: seq<string>)
    requires forall id :: id in ids ==> id in h.nodes
    ensures StepsLeft(h, ids) <= 2 * |ids|
    ensures StepsLeft(h, ids) == 0 <==> forall id :: id in ids ==> !Unfinished(h.nodes[id].status)
  {
    if ids != [] {
      NoStepsLeft(h, ids[..|ids| - 1]);
      assert ids == ids[..|ids| - 1] + [ids[|ids| - 1]];
    }
  }

  /** Every step of a run without additions and cancellations uses up exactly one of the steps left. */
  lemma {:induction false} EachStepCounts(w: World, events: seq<Event>)
    requires Invariant(w) && Possible(w, events)
    requires forall e :: e in events ==> e.Start? || e.Finish?
    ensures var t := After(w, events);
            Invariant(t) && t.h.order == w.h.order && |events| + StepsLeft(t.h, t.h.order) == StepsLeft(w.h, w.h.order)
    decreases |events|
  {
    if events != [] {
      var e := events[0];
      assert e in events;
      StepKeepsInvariant(w, e);
      StepsLeftAfterStatus(w.h, w.h.order, e.id, if e.Start? then Running else e.status);
      EachStepCounts(Step(w, e), events[1..]);
    }
  }

  /** Nothing fails in a run in which tasks only end by completing. */
  lemma {:induction false} NothingFails(w: World, events: seq<Event>)
    requires Possible(w, events) && forall e :: e in events ==> e.Start? || (e.Finish? && e.status == Completed)
    requires forall x :: x in w.h.nodes ==> Unfinished(w.h.nodes[x].status) || w.h.nodes[x].status == Completed
    ensures forall x :: x in After(w, events).h.nodes ==>
              Unfinished(After(w, events).h.nodes[x].status) || After(w, events).h.nodes[x].status == Completed
    decreases |events|
  {
    if events != [] {
      assert events[0] in events;
      NothingFails(Step(w, events[0]), events[1..]);
    }
  }

  /** The same tasks with the same links. */
  ghost predicate SameLinks(h: Hierarchy, g: Hierarchy) {
    && g.order == h.order && g.nodes.Keys == h.nodes.Keys
    && forall x :: x in h.nodes ==> g.nodes[x].parent == h.nodes[x].parent && g.nodes[x].dependsOn == h.nodes[x].dependsOn
  }

  lemma {:induction false} RunKeepsLinks(w: World, events: seq<Event>)
    requires forall e :: e in events ==> e.Start? || e.Finish?
    ensures SameLinks(w.h, After(w, events).h)
    decreases |events|
  {
    if events != [] {
      assert events[0] in events;
      assert SameLinks(w.h, Step(w, events[0]).h);
      RunKeepsLinks(Step(w, events[0]), events[1..]);
    }
  }

  lemma SameRequirements(h: Hierarchy, g: Hierarchy)
    requires Keyed(h) && Keyed(g) && SameLinks(h, g) && RequirementsFirst(h)
    ensures RequirementsFirst(g)
  {
    forall id, r | Requires(g, id, r) ensures r in g.nodes && Position(g, r) < Position(g, id) {
      assert id in g.order;
      assert Requires(h, id, r);
      assert h.order[Position(g, r)] == r && h.order[Position(h, r)] == r;
      assert h.order[Position(g, id)] == id && h.order[Position(h, id)] == id;
    }
  }

  /** Unless everything is completed, some task can be started or is about to complete. */
  lemma CanGoOn(w: World)
    requires Keyed(w.h) && RequirementsFirst(w.h)
    requires forall x :: x in w.h.nodes ==> Unfinished(w.h.nodes[x].status) || w.h.nodes[x].status == Completed
    ensures || (forall x :: x in w.h.nodes ==> w.h.nodes[x].status == Completed)
            || (exists id :: Enabled(w, Start(id)) || Enabled(w, Finish(id, Completed)))
  {
    if x :| x in w.h.nodes && w.h.nodes[x].status == Running {
      assert Enabled(w, Finish(x, Completed));
    } else if x :| x in w.h.nodes && w.h.nodes[x].status == Pending {
      NoDeadlock(w.h, x);
      var ready := ExecutableAmong(w.h, w.h.order);
      assert ready[0] in ready;
      assert Enabled(w, Start(ready[0]));
    }
  }

  /** When nothing fails, every run from a hierarchy of `n` tasks takes at most `2 * n` steps, and
      as long as it is not complete it can go on; so every run can only end in completion. */
  lemma RunsComplete(h: Hierarchy, events: seq<Event>)
    requires IsTree(h) && RequirementsFirst(h) && forall x :: x in h.nodes ==> h.nodes[x].status == Pending
    requires Possible(World(h, {}), events) && forall e :: e in events ==> e.Start? || (e.Finish? && e.status == Completed)
    ensures |events| <= 2 * |h.order|
    ensures var w := After(World(h, {}), events);
            || (forall x :: x in w.h.nodes ==> w.h.nodes[x].status == Completed)
            || (exists id :: Enabled(w, Start(id)) || Enabled(w, Finish(id, Completed)))
  {
    EachStepCounts(World(h, {}), events);
    NoStepsLeft(h, h.order);
    NothingFails(World(h, {}), events);
    RunKeepsLinks(World(h, {}), events);
    SameRequirements(h, After(World(h, {}), events).h);
    CanGoOn(After(World(h, {}), events));
  }

  // ---------------------------------------------------------------- completion of runs that also add tasks

  lemma AddKeepsRequirements(h: Hierarchy, id: string, t: TaskInput)
    requires IsTree(h) && RequirementsFirst(h) && id !in h.nodes && Truthy(t.parentId) && t.parentId.value in h.nodes
    requires forall d :: d in t.dependsOn ==> d in h.nodes
    ensures Keyed(Added(h, id, t)) && RequirementsFirst(Added(h, id, t))
  {
    var g := Added(h, id, t);
    AddingTouchesTwoNodes(h, id, t);
    AddingKeepsParentsFirst(h, id, t);
    forall x | x in h.nodes ensures Position(g, x) == Position(h, x) {
      assert g.order[Position(h, x)] == x && g.order[Position(g, x)] == x;
    }
    forall x, r | Requires(g, x, r) ensures r in g.nodes && Position(g, r) < Position(g, x) {
      if x == id {
        assert r in h.nodes;
        assert g.order[|h.order|] == id && g.order[Position(g, id)] == id;
      } else {
        assert Requires(h, x, r);
      }
    }
  }

  lemma StepKeepsRequirements(w: World, e: Event)
    requires Invariant(w) && Enabled(w, e) && RequirementsFirst(w.h)
    ensures Invariant(Step(w, e)) && RequirementsFirst(Step(w, e).h)
  {
    StepKeepsInvariant(w, e);
    if e.Add? {
      AddKeepsRequirements(w.h, e.id, e.input);
    } else {
      SameRequirements(w.h, Step(w, e).h);
    }
  }

  /** In every run from a new hierarchy, every parent and dependency was added before what requires it. */
  lemma {:induction false} RunKeepsRequirements(w: World, events: seq<Event>)
    requires Invariant(w) && RequirementsFirst(w.h) && Possible(w, events)
    ensures Invariant(After(w, events)) && RequirementsFirst(After(w, events).h)
    decreases |events|
  {
    if events != [] {
      StepKeepsRequirements(w, events[0]);
      RunKeepsRequirements(Step(w, events[0]), events[1..]);
    }
  }

  /** The events of a run that are not additions. */
  function StepsTaken(events: seq<Event>): nat {
    if events == [] then 0 else (if events[0].Add? then 0 else 1) + StepsTaken(events[1..])
  }

  lemma {:induction false} StepsLeftOfSame(h: Hierarchy, g: Hierarchy, ids: seq<string>)
    requires forall x :: x in ids ==> x in h.nodes && x in g.nodes && g.nodes[x].status == h.nodes[x].status
    ensures StepsLeft(g, ids) == StepsLeft(h, ids)
  {
    if ids != [] {
      StepsLeftOfSame(h, g, ids[..|ids| - 1]);
    }
  }

  lemma AddingLeavesTwoSteps(h: Hierarchy, id: string, t: TaskInput)
    requires Keyed(h) && id !in h.nodes && Truthy(t.parentId) && t.parentId.value in h.nodes
    ensures var g := Added(h, id, t); |g.order| == |h.order| + 1 && StepsLeft(g, g.order) == StepsLeft(h, h.order) + 2
  {
    var g := Added(h, id, t);
    AddingTouchesTwoNodes(h, id, t);
    assert g.order[..|h.order|] == h.order && g.order[|h.order|] == id;
    StepsLeftOfSame(h, g, h.order);
    assert g.nodes[id].status == Pending;
  }

  /** One step lowers what is left of the two steps per task. */
  lemma StepIsCounted(w: World, e: Event)
    requires Invariant(w) && Enabled(w, e)
    ensures var t := Step(w, e);
            && |w.h.order| <= |t.h.order|
            && StepsLeft(t.h, t.h.order) + StepsTaken([e]) + 2 * |w.h.order| <= StepsLeft(w.h, w.h.order) + 2 * |t.h.order|
  {
    match e
    case Add(id, input) => AddingLeavesTwoSteps(w.h, id, input);
    case Start(id) => StepsLeftAfterStatus(w.h, w.h.order, id, Running);
    case Finish(id, status) => StepsLeftAfterStatus(w.h, w.h.order, id, status);
    case Cancel(id) => StepsLeftAfterStatus(w.h, w.h.order, id, Cancelled);
  }

  lemma {:induction false} RunIsCounted(w: World, events: seq<Event>)
    requires Invariant(w) && Possible(w, events)
    ensures var t := After(w, events);
            StepsLeft(t.h, t.h.order) + StepsTaken(events) + 2 * |w.h.order| <= StepsLeft(w.h, w.h.order) + 2 * |t.h.order|
    decreases |events|
  {
    if events != [] {
      StepIsCounted(w, events[0]);
      StepKeepsInvariant(w, events[0]);
      RunIsCounted(Step(w, events[0]), events[1..]);
    }
  }

  /** Nothing fails in a run in which tasks are added, started and completed. */
  lemma {:induction false} NothingFailsBesideAdds(w: World, events: seq<Event>)
    requires Possible(w, events)
    requires forall e :: e in events ==> e.Add? || e.Start? || (e.Finish? && e.status == Completed)
    requires forall x :: x in w.h.nodes ==> Unfinished(w.h.nodes[x].status) || w.h.nodes[x].status == Completed
    ensures forall x :: x in After(w, events).h.nodes ==>
              Unfinished(After(w, events).h.nodes[x].status) || After(w, events).h.nodes[x].status == Completed
    decreases |events|
  {
    if events != [] {
      var e := events[0];
      assert e in events;
      if e.Add? {
        AddingTouchesTwoNodes(w.h, e.id, e.input);
        assert Added(w.h, e.id, e.input).nodes[e.id].status == Pending;
      }
      NothingFailsBesideAdds(Step(w, e), events[1..]);
    }
  }

  /** In every run from a new hierarchy, with additions at any time, the starts, finishes and cancellations
      number at most two per task; and when nothing fails the run can go on until all are completed. */
  lemma EveryRunCanComplete(rootId: string, description: string, events: seq<Event>)
    requires Possible(World(NewHierarchy(rootId, description), {}), events)
    ensures var w := After(World(NewHierarchy(rootId, description), {}), events);
            && StepsTaken(events) <= 2 * |w.h.order|
            && ((forall e :: e in events ==> e.Add? || e.Start? || (e.Finish? && e.status == Completed)) ==>
                  || (forall x :: x in w.h.nodes ==> w.h.nodes[x].status == Completed)
                  || (exists id :: Enabled(w, Start(id)) || Enabled(w, Finish(id, Completed))))
  {
    var start := World(NewHierarchy(rootId, description), {});
    NewHierarchyIsTree(rootId, description);
    NewRequiresNothing(rootId, description);
    RunIsCounted(start, events);
    NoStepsLeft(start.h, start.h.order);
    RunKeepsRequirements(start, events);
    if forall e :: e in events ==> e.Add? || e.Start? || (e.Finish? && e.status == Completed) {
      NothingFailsBesideAdds(start, events);
      CanGoOn(After(start, events));
    }
  }

  lemma NewRequiresNothing(rootId: string, description: string)
    ensures Keyed(NewHierarchy(rootId, description)) && RequirementsFirst(NewHierarchy(rootId, description))
  {
  }
}
