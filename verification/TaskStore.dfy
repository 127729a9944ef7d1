/** Task hierarchies by session: src/core/task/store.ts. Identifiers of new tasks, random in the
    original, are inputs and assumed fresh; creation times and agents are not modelled. */
module TaskStore {
  import opened Prelude

  datatype Status = Pending | Running | Completed | Failed | Error | Timeout | Cancelled

  /** What a node remembers of its status changes. */
  datatype Record = Record(startedAt: Option<int>, completedAt: Option<int>, result: Option<string>)

  datatype TaskNode = TaskNode(
    description: string, level: int, parent: Option<string>, children: seq<string>, status: Status,
    parallelGroup: Option<string>, dependsOn: seq<string>, record: Record)

  const BLANK := Record(None, None, None)

  datatype TaskInput = TaskInput(
    description: string, level: int, parentId: Option<string>, parallelGroup: Option<string>, dependsOn: seq<string>)

  /** `order` lists the keys of the node map in insertion order, in which a JavaScript `Map` iterates. */
  datatype Hierarchy = Hierarchy(
    rootId: string, order: seq<string>, nodes: map<string, TaskNode>, parallelGroups: map<string, seq<string>>)

  /** An absent or empty string is falsy. */
  predicate Truthy(s: Option<string>) {
    s.Some? && s.value != ""
  }

  function NewHierarchy(rootId: string, description: string): Hierarchy {
    Hierarchy(rootId, [rootId], map[rootId := TaskNode(description, 0, None, [], Pending, None, [], BLANK)], map[])
  }

  function Adopt(nodes: map<string, TaskNode>, parent: Option<string>, id: string): map<string, TaskNode> {
    if Truthy(parent) && parent.value in nodes
    then nodes[parent.value := nodes[parent.value].(children := nodes[parent.value].children + [id])]
    else nodes
  }

  function Grouped(groups: map<string, seq<string>>, group: Option<string>, id: string): map<string, seq<string>> {
    if Truthy(group)
    then groups[group.value := (if group.value in groups then groups[group.value] else []) + [id]]
    else groups
  }

  function Added(h: Hierarchy, id: string, t: TaskInput): Hierarchy {
    var node := TaskNode(t.description, t.level, t.parentId, [], Pending, t.parallelGroup, t.dependsOn, BLANK);
    Hierarchy(h.rootId,
              if id in h.nodes then h.order else h.order + [id],
              Adopt(h.nodes[id := node], t.parentId, id),
              Grouped(h.parallelGroups, t.parallelGroup, id))
  }

  function WithStatus(h: Hierarchy, id: string, status: Status): Hierarchy {
    if id in h.nodes then h.(nodes := h.nodes[id := h.nodes[id].(status := status)]) else h
  }

  // ---------------------------------------------------------------- status changes

  /** One call of `updateStatus` for a node that exists. */
  datatype Change = Change(status: Status, result: Option<string>, now: int)

  predicate Ends(s: Status) {
    s.Completed? || s.Failed? || s.Cancelled?
  }

  /** The first start and the first end are kept, and the last result that is not empty. */
  function Recorded(r: Record, c: Change): Record {
    Record(if c.status.Running? && r.startedAt.None? then Some(c.now) else r.startedAt,
           if Ends(c.status) && r.completedAt.None? then Some(c.now) else r.completedAt,
           if Truthy(c.result) then c.result else r.result)
  }

  function Updated(h: Hierarchy, id: string, c: Change): Hierarchy {
    if id in h.nodes
    then h.(nodes := h.nodes[id := h.nodes[id].(status := c.status, record := Recorded(h.nodes[id].record, c))])
    else h
  }

  function AllUpdated(h: Hierarchy, changes: seq<(string, Change)>): Hierarchy {
    if changes == [] then h
    else Updated(AllUpdated(h, changes[..|changes| - 1]), changes[|changes| - 1].0, changes[|changes| - 1].1)
  }

  predicate StartsAt(changes: seq<(string, Change)>, id: string, i: int)
    requires 0 <= i < |changes|
  {
    changes[i].0 == id && changes[i].1.status == Running
  }

  predicate EndsAt(changes: seq<(string, Change)>, id: string, i: int)
    requires 0 <= i < |changes|
  {
    changes[i].0 == id && changes[i].1.status in {Completed, Failed, Cancelled}
  }

  /** `at` is the time of the first change that satisfies `marks`, if there is one. */
  ghost predicate IsFirst(changes: seq<(string, Change)>, marks: int -> bool, at: Option<int>) {
    if at.None? then forall i :: 0 <= i < |changes| ==> !marks(i)
    else exists i :: 0 <= i < |changes| && IsFirstAt(changes, marks, i) && changes[i].1.now == at.value
  }

  ghost predicate IsFirstAt(changes: seq<(string, Change)>, marks: int -> bool, i: int)
    requires 0 <= i < |changes|
  {
    marks(i) && forall j :: 0 <= j < i ==> !marks(j)
  }

  lemma FirstOfOneMore(changes: seq<(string, Change)>, c: (string, Change), before: int -> bool, marks: int -> bool,
                       at: Option<int>)
    requires IsFirst(changes, before, at) && forall i :: 0 <= i < |changes| ==> marks(i) == before(i)
    ensures IsFirst(changes + [c], marks, if at.None? && marks(|changes|) then Some(c.1.now) else at)
  {
    var longer := changes + [c];
    if at.None? {
      if marks(|changes|) {
        assert IsFirstAt(longer, marks, |changes|);
      }
    } else {
      var i :| 0 <= i < |changes| && IsFirstAt(changes, before, i) && changes[i].1.now == at.value;
      assert IsFirstAt(longer, marks, i);
    }
  }

  ghost function Starts(changes: seq<(string, Change)>, id: string): int -> bool {
    i => 0 <= i < |changes| && StartsAt(changes, id, i)
  }

  ghost function Endings(changes: seq<(string, Change)>, id: string): int -> bool {
    i => 0 <= i < |changes| && EndsAt(changes, id, i)
  }

  /** Over every run of status changes a node keeps the time of its first start and of its first end. */
  lemma {:induction false} FirstTimesAreKept(h: Hierarchy, changes: seq<(string, Change)>, id: string)
    requires id in h.nodes && h.nodes[id].record == BLANK
    ensures id in AllUpdated(h, changes).nodes
    ensures IsFirst(changes, Starts(changes, id), AllUpdated(h, changes).nodes[id].record.startedAt)
    ensures IsFirst(changes, Endings(changes, id), AllUpdated(h, changes).nodes[id].record.completedAt)
  {
    if changes != [] {
      var front, c := changes[..|changes| - 1], changes[|changes| - 1];
      FirstTimesAreKept(h, front, id);
      assert changes == front + [c];
      var r := AllUpdated(h, front).nodes[id].record;
      FirstOfOneMore(front, c, Starts(front, id), Starts(changes, id), r.startedAt);
      FirstOfOneMore(front, c, Endings(front, id), Endings(changes, id), r.completedAt);
    }
  }

  /** The last result given for `id` that is not empty. */
  function LastResult(changes: seq<(string, Change)>, id: string): Option<string> {
    if changes == [] then None
    else
      var (x, c) := changes[|changes| - 1];
      if x == id && c.result.Some? && |c.result.value| > 0 then c.result
      else LastResult(changes[..|changes| - 1], id)
  }

  /** The status last given for `id`, `before` if none was. */
  function LastStatus(changes: seq<(string, Change)>, id: string, before: Status): Status {
    if changes == [] then before
    else if changes[|changes| - 1].0 == id then changes[|changes| - 1].1.status
    else LastStatus(changes[..|changes| - 1], id, before)
  }

  /** Over every run of status changes a node has the status last given and the last result that is not empty,
      and keeps everything else; no node appears or goes. */
  lemma {:induction false} LastStatusAndResultStand(h: Hierarchy, changes: seq<(string, Change)>, id: string)
    requires id in h.nodes && h.nodes[id].record.result == None
    ensures var g := AllUpdated(h, changes);
      && g.nodes.Keys == h.nodes.Keys && g.(nodes := h.nodes) == h
      && g.nodes[id].status == LastStatus(changes, id, h.nodes[id].status)
      && g.nodes[id].record.result == LastResult(changes, id)
      && g.nodes[id].(status := h.nodes[id].status, record := h.nodes[id].record) == h.nodes[id]
  {
    if changes != [] {
      LastStatusAndResultStand(h, changes[..|changes| - 1], id);
    }
  }

  /** A hierarchy without its records. */
  function Bare(h: Hierarchy): Hierarchy {
    h.(nodes := map id | id in h.nodes :: h.nodes[id].(record := BLANK))
  }

  /** The records aside, a change is a change of status. */
  lemma UpdatedIsWithStatus(h: Hierarchy, id: string, c: Change)
    ensures Bare(Updated(h, id, c)) == WithStatus(Bare(h), id, c.status)
  {
    var a, b := Bare(Updated(h, id, c)), WithStatus(Bare(h), id, c.status);
    assert a.nodes.Keys == b.nodes.Keys;
    assert a.nodes == b.nodes;
  }

  // ---------------------------------------------------------------- the tree

  ghost predicate Keyed(h: Hierarchy) {
    && NoDuplicates(h.order)
    && (forall id :: id in h.order <==> id in h.nodes)
    && |h.order| > 0 && h.order[0] == h.rootId
  }

  /** Only the root lacks a parent; every other node's parent was added before it. */
  ghost predicate ParentsFirst(h: Hierarchy)
    requires Keyed(h)
  {
    !Truthy(h.nodes[h.rootId].parent) && forall i :: 1 <= i < |h.order| ==> ParentBefore(h, i)
  }

  ghost predicate ParentBefore(h: Hierarchy, i: int)
    requires 1 <= i < |h.order| && h.order[i] in h.nodes
  {
    Truthy(h.nodes[h.order[i]].parent) && h.nodes[h.order[i]].parent.value in h.order[..i]
  }

  /** The nodes among `ids` whose parent is `p`, in order. */
  function ChildrenAmong(nodes: map<string, TaskNode>, ids: seq<string>, p: string): seq<string> {
    if ids == [] then []
    else
      var last := ids[|ids| - 1];
      ChildrenAmong(nodes, ids[..|ids| - 1], p) +
      (if last in nodes && Truthy(nodes[last].parent) && nodes[last].parent.value == p then [last] else [])
  }

  /** Children lists are the exact inverse of parent links, in order of addition. */
  ghost predicate ChildrenInvertParents(h: Hierarchy) {
    forall p :: p in h.nodes ==> h.nodes[p].children == ChildrenAmong(h.nodes, h.order, p)
  }

  ghost predicate IsTree(h: Hierarchy) {
    Keyed(h) && ParentsFirst(h) && ChildrenInvertParents(h)
  }

  lemma {:induction false} ChildrenDependOnParentsOnly(m: map<string, TaskNode>, n: map<string, TaskNode>, ids: seq<string>, p: string)
    requires forall id :: id in ids ==> id in m && id in n && m[id].parent == n[id].parent
    ensures ChildrenAmong(m, ids, p) == ChildrenAmong(n, ids, p)
  {
    if ids != [] {
      ChildrenDependOnParentsOnly(m, n, ids[..|ids| - 1], p);
    }
  }

  lemma {:induction false} NoChildrenYet(nodes: map<string, TaskNode>, ids: seq<string>, p: string)
    requires forall id :: id in ids && id in nodes && Truthy(nodes[id].parent) ==> nodes[id].parent.value != p
    ensures ChildrenAmong(nodes, ids, p) == []
  {
    if ids != [] {
      NoChildrenYet(nodes, ids[..|ids| - 1], p);
    }
  }

  lemma NewHierarchyIsTree(rootId: string, description: string)
    ensures IsTree(NewHierarchy(rootId, description))
  {
    var h := NewHierarchy(rootId, description);
    NoChildrenYet(h.nodes, h.order, rootId);
  }

  /** The node that an addition makes. */
  predicate IsNewNode(n: TaskNode, t: TaskInput) {
    && n.description == t.description && n.level == t.level && n.parent == t.parentId && n.children == []
    && n.status == Pending && n.parallelGroup == t.parallelGroup && n.dependsOn == t.dependsOn
    && n.record == Record(None, None, None)
  }

  /** What an addition under a fresh identifier changes, whether or not its parent exists: one pending node at the
      end, one child more for an existing parent, one member more at the end of its group. */
  lemma AddingChangesExactly(h: Hierarchy, id: string, t: TaskInput)
    requires id !in h.nodes && t.parentId != Some(id)
    ensures var g := Added(h, id, t);
      && g.rootId == h.rootId && g.order == h.order + [id] && g.nodes.Keys == h.nodes.Keys + {id}
      && IsNewNode(g.nodes[id], t)
      && (forall x :: x in h.nodes ==>
            g.nodes[x] == h.nodes[x].(children := h.nodes[x].children + (if t.parentId == Some(x) && x != "" then [id] else [])))
      && (forall y :: y in g.parallelGroups <==> y in h.parallelGroups || (t.parallelGroup == Some(y) && y != ""))
      && (forall y :: y in g.parallelGroups ==>
            g.parallelGroups[y] == (if y in h.parallelGroups then h.parallelGroups[y] else [])
                                 + (if t.parallelGroup == Some(y) && y != "" then [id] else []))
  {
  }

  /** A new hierarchy is its root, pending, without anything below it or in a group. */
  lemma NewIsRootOnly(rootId: string, description: string)
    ensures var h := NewHierarchy(rootId, description);
      && h.rootId == rootId && h.order == [rootId] && h.nodes.Keys == {rootId} && h.parallelGroups == map[]
      && IsNewNode(h.nodes[rootId], TaskInput(description, 0, None, None, []))
  {
  }

  /** What an addition below an existing node, under a fresh identifier, does to the nodes. */
  lemma AddingTouchesTwoNodes(h: Hierarchy, id: string, t: TaskInput)
    requires id !in h.nodes && Truthy(t.parentId) && t.parentId.value in h.nodes
    ensures var g := Added(h, id, t);
            && g.order == h.order + [id] && g.nodes.Keys == h.nodes.Keys + {id}
            && g.nodes[id].parent == t.parentId && g.nodes[id].children == []
            && forall x :: x in h.nodes ==>
                 g.nodes[x] == if x == t.parentId.value then h.nodes[x].(children := h.nodes[x].children + [id]) else h.nodes[x]
  {
  }

  lemma AddingKeepsParentsFirst(h: Hierarchy, id: string, t: TaskInput)
    requires Keyed(h) && ParentsFirst(h) && id !in h.nodes && Truthy(t.parentId) && t.parentId.value in h.nodes
    ensures Keyed(Added(h, id, t)) && ParentsFirst(Added(h, id, t))
  {
    var g := Added(h, id, t);
    AddingTouchesTwoNodes(h, id, t);
    assert forall i :: 0 <= i < |h.order| ==> h.order[i] in h.nodes;
    forall i | 1 <= i < |g.order| ensures ParentBefore(g, i) {
      assert g.order[..i] == if i < |h.order| then h.order[..i] else h.order;
      assert i < |h.order| ==> ParentBefore(h, i);
    }
  }

  lemma AddingKeepsChildren(h: Hierarchy, id: string, t: TaskInput, p: string)
    requires IsTree(h) && id !in h.nodes && Truthy(t.parentId) && t.parentId.value in h.nodes
    requires p in Added(h, id, t).nodes
    ensures var g := Added(h, id, t);
            g.nodes[p].children == ChildrenAmong(g.nodes, g.order, p)
  {
    var g := Added(h, id, t);
    AddingTouchesTwoNodes(h, id, t);
    assert g.order[..|h.order|] == h.order;
    ChildrenDependOnParentsOnly(g.nodes, h.nodes, h.order, p);
    if p == id {
      ParentsAreKnown(h);
      NoChildrenYet(h.nodes, h.order, id);
    }
  }

  /** Adding a task below an existing node keeps the tree. */
  lemma AddingKeepsTree(h: Hierarchy, id: string, t: TaskInput)
    requires IsTree(h) && id !in h.nodes && Truthy(t.parentId) && t.parentId.value in h.nodes
    ensures IsTree(Added(h, id, t))
  {
    AddingKeepsParentsFirst(h, id, t);
    forall p | p in Added(h, id, t).nodes
      ensures Added(h, id, t).nodes[p].children == ChildrenAmong(Added(h, id, t).nodes, Added(h, id, t).order, p)
    {
      AddingKeepsChildren(h, id, t, p);
    }
  }

  lemma ParentsAreKnown(h: Hierarchy)
    requires Keyed(h) && ParentsFirst(h)
    ensures forall id :: id in h.order && Truthy(h.nodes[id].parent) ==> h.nodes[id].parent.value in h.nodes
  {
    forall id | id in h.order && Truthy(h.nodes[id].parent) ensures h.nodes[id].parent.value in h.nodes {
      var i :| 0 <= i < |h.order| && h.order[i] == id;
      assert i > 0 ==> ParentBefore(h, i);
      assert h.nodes[id].parent.value in h.order;
    }
  }

  lemma SameLinksSameTree(h: Hierarchy, g: Hierarchy)
    requires IsTree(h) && g.rootId == h.rootId && g.order == h.order && g.nodes.Keys == h.nodes.Keys
    requires forall x :: x in h.nodes ==> g.nodes[x].parent == h.nodes[x].parent && g.nodes[x].children == h.nodes[x].children
    ensures IsTree(g)
  {
    assert Keyed(g);
    assert forall i :: 0 <= i < |h.order| ==> h.order[i] in h.nodes;
    forall i | 1 <= i < |g.order| ensures ParentBefore(g, i) {
      assert ParentBefore(h, i);
    }
    assert ParentsFirst(g);
    forall p | p in g.nodes ensures g.nodes[p].children == ChildrenAmong(g.nodes, g.order, p) {
      ChildrenDependOnParentsOnly(g.nodes, h.nodes, h.order, p);
    }
  }

  /** A status change keeps the tree. */
  lemma StatusKeepsTree(h: Hierarchy, id: string, status: Status)
    requires IsTree(h)
    ensures IsTree(WithStatus(h, id, status))
  {
    SameLinksSameTree(h, WithStatus(h, id, status));
  }

  lemma UpdateKeepsTree(h: Hierarchy, id: string, c: Change)
    requires IsTree(h)
    ensures IsTree(Updated(h, id, c))
  {
    SameLinksSameTree(h, Updated(h, id, c));
  }

  ghost function Position(h: Hierarchy, id: string): (i: nat)
    requires Keyed(h) && id in h.nodes
    ensures i < |h.order| && h.order[i] == id
  {
    var i :| 0 <= i < |h.order| && h.order[i] == id;
    i
  }

  /** Where following parent links from `id` ends. */
  ghost function TopOf(h: Hierarchy, id: string): string
    requires Keyed(h) && ParentsFirst(h) && id in h.nodes
    decreases Position(h, id)
  {
    if !Truthy(h.nodes[id].parent) then id
    else
      ParentComesEarlier(h, id);
      TopOf(h, h.nodes[id].parent.value)
  }

  lemma ParentComesEarlier(h: Hierarchy, id: string)
    requires Keyed(h) && ParentsFirst(h) && id in h.nodes && Truthy(h.nodes[id].parent)
    ensures h.nodes[id].parent.value in h.nodes && Position(h, h.nodes[id].parent.value) < Position(h, id)
  {
    var p, i := h.nodes[id].parent.value, Position(h, id);
    assert i > 0 ==> ParentBefore(h, i);
    var j :| 0 <= j < i && h.order[j] == p;
    assert p in h.order;
  }

  /** Every chain of parents reaches the root. */
  lemma {:induction false} EveryChainReachesRoot(h: Hierarchy, id: string)
    requires Keyed(h) && ParentsFirst(h) && id in h.nodes
    ensures TopOf(h, id) == h.rootId
    decreases Position(h, id)
  {
    assert Position(h, id) > 0 ==> ParentBefore(h, Position(h, id));
    if Truthy(h.nodes[id].parent) {
      ParentComesEarlier(h, id);
      EveryChainReachesRoot(h, h.nodes[id].parent.value);
    }
  }

  // ---------------------------------------------------------------- progress

  function CountStatus(h: Hierarchy, ids: seq<string>, statuses: set<Status>): nat {
    if ids == [] then 0
    else
      CountStatus(h, ids[..|ids| - 1], statuses) +
      (if ids[|ids| - 1] in h.nodes && h.nodes[ids[|ids| - 1]].status in statuses then 1 else 0)
  }

  datatype Progress = Progress(total: nat, pending: nat, running: nat, completed: nat, failed: nat, percentage: int)

  /** `Math.round((done / total) * 100)` in exact arithmetic, where halves are rounded up. */
  function Percentage(done: nat, total: nat): int {
    if total > 0 then (200 * done + total) / (2 * total) else 0
  }

  /** A nearest integer. The quotient is a double, which may fall short of a half, so of two nearest
      integers either may be the result. */
  predicate IsNearestPercentage(p: int, done: nat, total: nat) {
    if total == 0 then p == 0 else 0 - total <= 200 * done - 2 * total * p <= total
  }

  lemma PercentageIsNearest(done: nat, total: nat)
    ensures IsNearestPercentage(Percentage(done, total), done, total)
  {
  }

  predicate Unfinished(s: Status) {
    s.Pending? || s.Running?
  }

  class Store {
    var hierarchies: map<string, Hierarchy>

    constructor ()
      ensures hierarchies == map[]
    {
      hierarchies := map[];
    }

    method Create(sessionId: string, rootId: string, rootDescription: string)
      modifies this
      ensures hierarchies == old(hierarchies)[sessionId := NewHierarchy(rootId, rootDescription)]
    {
      hierarchies := hierarchies[sessionId := NewHierarchy(rootId, rootDescription)];
    }

    /** False where the original throws: the session has no hierarchy. */
    method AddTask(sessionId: string, id: string, t: TaskInput) returns (ok: bool)
      modifies this
      ensures ok == (sessionId in old(hierarchies))
      ensures hierarchies == if ok then old(hierarchies)[sessionId := Added(old(hierarchies)[sessionId], id, t)]
                             else old(hierarchies)
    {
      if sessionId !in hierarchies {
        return false;
      }
      var h := hierarchies[sessionId];
      var node := TaskNode(t.description, t.level, t.parentId, [], Pending, t.parallelGroup, t.dependsOn, BLANK);
      if id !in h.nodes {
        h := h.(order := h.order + [id]);
      }
      h := h.(nodes := h.nodes[id := node]);
      if Truthy(t.parentId) && t.parentId.value in h.nodes {
        var parent := h.nodes[t.parentId.value];
        h := h.(nodes := h.nodes[t.parentId.value := parent.(children := parent.children + [id])]);
      }
      ghost var groups := h.parallelGroups;
      if Truthy(t.parallelGroup) {
        var group := t.parallelGroup.value;
        if group !in h.parallelGroups {
          h := h.(parallelGroups := h.parallelGroups[group := []]);
        }
        h := h.(parallelGroups := h.parallelGroups[group := h.parallelGroups[group] + [id]]);
        assert groups[group := []][group := [id]] == groups[group := [id]];
      }
      assert h.parallelGroups == Grouped(groups, t.parallelGroup, id);
      hierarchies := hierarchies[sessionId := h];
      ok := true;
    }

    method UpdateStatus(sessionId: string, taskId: string, status: Status, result: Option<string>, now: int)
      modifies this
      ensures hierarchies
           == if sessionId in old(hierarchies)
              then old(hierarchies)[sessionId := Updated(old(hierarchies)[sessionId], taskId, Change(status, result, now))]
              else old(hierarchies)
    {
      if sessionId !in hierarchies {
        return;
      }
      var h := hierarchies[sessionId];
      if taskId !in h.nodes {
        return;
      }
      var node := h.nodes[taskId];
      node := node.(status := status);
      if status == Running && node.record.startedAt.None? {
        node := node.(record := node.record.(startedAt := Some(now)));
      }
      if (status == Completed || status == Failed || status == Cancelled) && node.record.completedAt.None? {
        node := node.(record := node.record.(completedAt := Some(now)));
      }
      if Truthy(result) {
        node := node.(record := node.record.(result := result));
      }
      hierarchies := hierarchies[sessionId := h.(nodes := h.nodes[taskId := node])];
    }

    method Clear(sessionId: string)
      modifies this
      ensures hierarchies == old(hierarchies) - {sessionId}
    {
      hierarchies := hierarchies - {sessionId};
    }
  }

  /** `isComplete` of a session's hierarchy. */
  method IsComplete(h: Hierarchy) returns (complete: bool)
    requires Keyed(h)
    ensures complete <==> forall id :: id in h.nodes ==> h.nodes[id].status != Pending && h.nodes[id].status != Running
  {
    for i := 0 to |h.order|
      invariant forall k :: 0 <= k < i ==> !Unfinished(h.nodes[h.order[k]].status)
    {
      if Unfinished(h.nodes[h.order[i]].status) {
        return false;
      }
    }
    complete := true;
  }

  lemma CountOneMore(h: Hierarchy, i: nat, statuses: set<Status>)
    requires Keyed(h) && i < |h.order|
    ensures CountStatus(h, h.order[..i + 1], statuses)
         == CountStatus(h, h.order[..i], statuses) + (if h.nodes[h.order[i]].status in statuses then 1 else 0)
  {
    assert h.order[..i + 1][..i] == h.order[..i];
  }

  /** `getProgress` of a session's hierarchy. */
  method GetProgress(h: Hierarchy) returns (p: Progress)
    requires Keyed(h)
    ensures p.total == |h.order|
    ensures p.pending == CountStatus(h, h.order, {Pending})
    ensures p.running == CountStatus(h, h.order, {Running})
    ensures p.completed == CountStatus(h, h.order, {Completed})
    ensures p.failed == CountStatus(h, h.order, {Failed, Cancelled})
    ensures IsNearestPercentage(p.percentage, p.completed + p.failed, p.total)
  {
    var pending, running, completed, failed := 0, 0, 0, 0;
    for i := 0 to |h.order|
      invariant pending == CountStatus(h, h.order[..i], {Pending})
      invariant running == CountStatus(h, h.order[..i], {Running})
      invariant completed == CountStatus(h, h.order[..i], {Completed})
      invariant failed == CountStatus(h, h.order[..i], {Failed, Cancelled})
    {
      CountOneMore(h, i, {Pending});
      CountOneMore(h, i, {Running});
      CountOneMore(h, i, {Completed});
      CountOneMore(h, i, {Failed, Cancelled});
      match h.nodes[h.order[i]].status
      case Pending => pending := pending + 1;
      case Running => running := running + 1;
      case Completed => completed := completed + 1;
      case Failed => failed := failed + 1;
      case Cancelled => failed := failed + 1;
      case Error =>
      case Timeout =>
    }
    assert h.order[..|h.order|] == h.order;
    PercentageIsNearest(completed + failed, |h.order|);
    p := Progress(|h.order|, pending, running, completed, failed, Percentage(completed + failed, |h.order|));
  }

  lemma {:induction false} CountsOfParts(h: Hierarchy, ids: seq<string>, a: set<Status>, b: set<Status>)
    requires a !! b
    ensures CountStatus(h, ids, a + b) == CountStatus(h, ids, a) + CountStatus(h, ids, b)
  {
    if ids != [] {
      CountsOfParts(h, ids[..|ids| - 1], a, b);
    }
  }

  lemma {:induction false} CountOfNone(h: Hierarchy, ids: seq<string>, statuses: set<Status>)
    requires forall id :: id in ids ==> id in h.nodes
    ensures CountStatus(h, ids, statuses) <= |ids|
    ensures CountStatus(h, ids, statuses) == 0 <==> forall id :: id in ids ==> h.nodes[id].status !in statuses
  {
    if ids != [] {
      CountOfNone(h, ids[..|ids| - 1], statuses);
      assert ids == ids[..|ids| - 1] + [ids[|ids| - 1]];
    }
  }

  lemma {:induction false} CountOfAll(h: Hierarchy, ids: seq<string>, statuses: set<Status>)
    requires forall id :: id in ids ==> id in h.nodes && h.nodes[id].status in statuses
    ensures CountStatus(h, ids, statuses) == |ids|
  {
    if ids != [] {
      CountOfAll(h, ids[..|ids| - 1], statuses);
      assert ids == ids[..|ids| - 1] + [ids[|ids| - 1]];
    }
  }

  /** The four counters of `getProgress` add up to the total exactly when no task has ended in
      `Error` or `Timeout`: those two are counted nowhere although `isComplete` takes them as done. */
  lemma CountersAddUp(h: Hierarchy)
    requires Keyed(h)
    ensures CountStatus(h, h.order, {Pending}) + CountStatus(h, h.order, {Running})
          + CountStatus(h, h.order, {Completed}) + CountStatus(h, h.order, {Failed, Cancelled}) == |h.order|
       <==> forall id :: id in h.nodes ==> !h.nodes[id].status.Error? && !h.nodes[id].status.Timeout?
  {
    var counted, rest := {Pending} + {Running} + {Completed} + {Failed, Cancelled}, {Error, Timeout};
    CountsOfParts(h, h.order, {Pending}, {Running});
    CountsOfParts(h, h.order, {Pending} + {Running}, {Completed});
    CountsOfParts(h, h.order, {Pending} + {Running} + {Completed}, {Failed, Cancelled});
    CountsOfParts(h, h.order, counted, rest);
    forall id | id in h.order ensures h.nodes[id].status in counted + rest {
      match h.nodes[id].status
      case Pending => case Running => case Completed => case Failed => case Error => case Timeout => case Cancelled =>
    }
    CountOfAll(h, h.order, counted + rest);
    CountOfNone(h, h.order, rest);
  }
}
