/** The hierarchy parser of src/core/task/parser.ts. The accepted lines, which the original selects
    with a regular expression, are the input; identifiers of new tasks are given and fresh. */
module TaskParser {
  import opened Prelude
  import opened TaskStore

  datatype Line = Line(level: nat, description: string, parallelGroup: Option<string>, dependsOn: seq<string>)

  /** An entry of the stack of open levels. */
  datatype Frame = Frame(id: string, level: nat)

  /** The nearest line before `j` whose level is below `level`. */
  function NearestSmaller(lines: seq<Line>, j: nat, level: nat): (k: Option<nat>)
    requires j <= |lines|
    ensures k.Some? ==> k.value < j && lines[k.value].level < level
  {
    if j == 0 then None
    else if lines[j - 1].level < level then Some(j - 1)
    else NearestSmaller(lines, j - 1, level)
  }

  /** The nearest earlier line with a smaller level, or the root if there is none. */
  function ParentOf(rootId: string, lines: seq<Line>, ids: seq<string>, i: nat): string
    requires i < |lines| == |ids|
  {
    match NearestSmaller(lines, i, lines[i].level)
    case None => rootId
    case Some(k) => ids[k]
  }

  /** `ParentOf` says what its comment says. */
  lemma {:induction false} NearestSmallerIsNearest(lines: seq<Line>, j: nat, level: nat)
    requires j <= |lines|
    ensures match NearestSmaller(lines, j, level)
            case None => forall m :: 0 <= m < j ==> lines[m].level >= level
            case Some(k) => lines[k].level < level && forall m :: k < m < j ==> lines[m].level >= level
  {
    if j > 0 && lines[j - 1].level >= level {
      NearestSmallerIsNearest(lines, j - 1, level);
    }
  }

  lemma {:induction false} NearestIsUnique(lines: seq<Line>, j: nat, level: nat, k: int)
    requires j <= |lines| && -1 <= k < j
    requires k >= 0 ==> lines[k].level < level
    requires forall m :: k < m < j ==> lines[m].level >= level
    ensures NearestSmaller(lines, j, level) == if k < 0 then None else Some(k)
  {
    if k < j - 1 {
      assert lines[j - 1].level >= level;
      NearestIsUnique(lines, j - 1, level, k);
    }
  }

  function FrameAt(rootId: string, lines: seq<Line>, ids: seq<string>, k: int): Frame
    requires |lines| == |ids| && -1 <= k < |lines|
  {
    if k == -1 then Frame(rootId, 0) else Frame(ids[k], lines[k].level)
  }

  /** No line strictly between `lo` and `hi` is below `level`. */
  ghost predicate NoneBelow(lines: seq<Line>, lo: int, hi: int, level: nat) {
    forall m :: lo < m < hi && 0 <= m < |lines| ==> lines[m].level >= level
  }

  /** The lines whose frames are on the stack, the top one last; -1 is the root. */
  datatype Spine = Base | Over(below: Spine, line: int)

  ghost function TopLine(spine: Spine): int {
    if spine.Base? then -1 else spine.line
  }

  /** The stack holds the frames of the spine; each has a level above the one under it, and whatever
      lies between the two lines is no smaller than the upper. */
  ghost predicate StackOf(rootId: string, lines: seq<Line>, ids: seq<string>, stack: seq<Frame>, spine: Spine)
    requires |lines| == |ids|
    decreases spine
  {
    match spine
    case Base => stack == []
    case Over(below, k) =>
      && stack != [] && -1 <= k < |lines|
      && var n := |stack| - 1;
      && stack[n] == FrameAt(rootId, lines, ids, k)
      && StackOf(rootId, lines, ids, stack[..n], below)
      && (n > 0 ==> TopLine(below) < k && stack[n - 1].level < stack[n].level)
      && NoneBelow(lines, TopLine(below), k, stack[n].level)
  }

  /** The levels on the stack are strictly increasing. */
  lemma {:induction false} LevelsIncrease(rootId: string, lines: seq<Line>, ids: seq<string>, stack: seq<Frame>, spine: Spine)
    requires |lines| == |ids| && StackOf(rootId, lines, ids, stack, spine)
    ensures forall s, t :: 0 <= s < t < |stack| ==> stack[s].level < stack[t].level
    decreases spine
  {
    if spine.Over? {
      var n := |stack| - 1;
      LevelsIncrease(rootId, lines, ids, stack[..n], spine.below);
      forall s, t | 0 <= s < t < |stack| ensures stack[s].level < stack[t].level {
        if t == n && s < n - 1 {
          assert stack[..n][s].level < stack[..n][n - 1].level;
        } else if t < n {
          assert stack[..n][s].level < stack[..n][t].level;
        }
      }
    }
  }

  /** Popping every frame that is not smaller leaves the nearest smaller line, if any, on top. */
  method PopLarger(ghost rootId: string, ghost lines: seq<Line>, ghost ids: seq<string>, ghost i: nat,
                   stack: seq<Frame>, ghost spine: Spine, level: nat)
      returns (left: seq<Frame>, ghost leftSpine: Spine)
    requires |lines| == |ids| && i <= |lines|
    requires StackOf(rootId, lines, ids, stack, spine) && TopLine(spine) == i - 1
    ensures StackOf(rootId, lines, ids, left, leftSpine) && TopLine(leftSpine) < i
    ensures left == [] || left[|left| - 1].level < level
    ensures NoneBelow(lines, TopLine(leftSpine), i, level)
  {
    left, leftSpine := stack, spine;
    while left != [] && left[|left| - 1].level >= level
      invariant StackOf(rootId, lines, ids, left, leftSpine) && TopLine(leftSpine) < i
      invariant NoneBelow(lines, TopLine(leftSpine), i, level)
    {
      left, leftSpine := left[..|left| - 1], leftSpine.below;
    }
  }

  /** The top of the popped stack is the parent that `ParentOf` describes. */
  lemma TopIsParent(rootId: string, lines: seq<Line>, ids: seq<string>, i: nat, stack: seq<Frame>, spine: Spine)
    requires |lines| == |ids| && i < |lines|
    requires StackOf(rootId, lines, ids, stack, spine) && TopLine(spine) < i
    requires stack == [] || stack[|stack| - 1].level < lines[i].level
    requires NoneBelow(lines, TopLine(spine), i, lines[i].level)
    ensures (if stack == [] then rootId else stack[|stack| - 1].id) == ParentOf(rootId, lines, ids, i)
  {
    NearestIsUnique(lines, i, lines[i].level, TopLine(spine));
  }

  lemma PushKeepsStack(rootId: string, lines: seq<Line>, ids: seq<string>, i: nat, stack: seq<Frame>, spine: Spine)
    requires |lines| == |ids| && i < |lines|
    requires StackOf(rootId, lines, ids, stack, spine) && TopLine(spine) < i
    requires stack == [] || stack[|stack| - 1].level < lines[i].level
    requires NoneBelow(lines, TopLine(spine), i, lines[i].level)
    ensures StackOf(rootId, lines, ids, stack + [Frame(ids[i], lines[i].level)], Over(spine, i))
  {
    assert (stack + [Frame(ids[i], lines[i].level)])[..|stack|] == stack;
  }

  function InputOf(line: Line, parentId: string): TaskInput {
    TaskInput(line.description, line.level, Some(parentId), line.parallelGroup, line.dependsOn)
  }

  /** Node `i` is what line `i` says, below the nearest earlier line of a smaller level. */
  ghost predicate Reflects(h: Hierarchy, rootId: string, lines: seq<Line>, ids: seq<string>, i: nat)
    requires i < |lines| == |ids|
  {
    && ids[i] in h.nodes
    && h.nodes[ids[i]].parent == Some(ParentOf(rootId, lines, ids, i))
    && h.nodes[ids[i]].level == lines[i].level
    && h.nodes[ids[i]].description == lines[i].description
    && h.nodes[ids[i]].dependsOn == lines[i].dependsOn
    && h.nodes[ids[i]].parallelGroup == lines[i].parallelGroup
    && h.nodes[ids[i]].status == Pending
  }

  /** The tree of the first `i` lines. */
  ghost predicate Parsed(h: Hierarchy, rootId: string, lines: seq<Line>, ids: seq<string>, i: nat)
    requires i <= |lines| == |ids|
  {
    && IsTree(h) && h.rootId == rootId && h.order == [rootId] + ids[..i]
    && forall k :: 0 <= k < i ==> Reflects(h, rootId, lines, ids, k)
  }

  /** The tasks of the first `i` lines that name `group`, in order. */
  function InGroup(lines: seq<Line>, ids: seq<string>, i: nat, group: string): seq<string>
    requires i <= |lines| == |ids|
  {
    if i == 0 then []
    else
      InGroup(lines, ids, i - 1, group) +
      (if Truthy(lines[i - 1].parallelGroup) && lines[i - 1].parallelGroup.value == group then [ids[i - 1]] else [])
  }

  /** The groups are those that some line names, each with exactly its tasks in order. */
  ghost predicate GroupsReflect(groups: map<string, seq<string>>, lines: seq<Line>, ids: seq<string>, i: nat)
    requires i <= |lines| == |ids|
  {
    forall g ::
      && (g in groups <==> InGroup(lines, ids, i, g) != [])
      && (g in groups ==> groups[g] == InGroup(lines, ids, i, g))
  }

  lemma GroupedReflects(groups: map<string, seq<string>>, lines: seq<Line>, ids: seq<string>, i: nat)
    requires i < |lines| == |ids| && GroupsReflect(groups, lines, ids, i)
    ensures GroupsReflect(Grouped(groups, lines[i].parallelGroup, ids[i]), lines, ids, i + 1)
  {
    var after := Grouped(groups, lines[i].parallelGroup, ids[i]);
    forall g ensures (g in after <==> InGroup(lines, ids, i + 1, g) != [])
      && (g in after ==> after[g] == InGroup(lines, ids, i + 1, g))
    {
      assert InGroup(lines, ids, i, g) + [] == InGroup(lines, ids, i, g);
    }
  }

  lemma AddedReflects(h: Hierarchy, rootId: string, lines: seq<Line>, ids: seq<string>, i: nat, parentId: string)
    requires i < |lines| == |ids| && ids[i] !in h.nodes
    requires parentId == ParentOf(rootId, lines, ids, i) && parentId in h.nodes && parentId != ""
    requires forall k :: 0 <= k < i ==> Reflects(h, rootId, lines, ids, k)
    ensures forall k :: 0 <= k <= i ==> Reflects(Added(h, ids[i], InputOf(lines[i], parentId)), rootId, lines, ids, k)
  {
    var t := InputOf(lines[i], parentId);
    var g := Added(h, ids[i], t);
    AddingTouchesTwoNodes(h, ids[i], t);
    forall k | 0 <= k < i ensures Reflects(g, rootId, lines, ids, k) {
      assert Reflects(h, rootId, lines, ids, k);
    }
    assert Reflects(g, rootId, lines, ids, i);
  }

  lemma AddedLineIsParsed(h: Hierarchy, rootId: string, lines: seq<Line>, ids: seq<string>, i: nat, parentId: string)
    requires i < |lines| == |ids| && NoDuplicates([rootId] + ids) && "" !in [rootId] + ids
    requires Parsed(h, rootId, lines, ids, i) && parentId == ParentOf(rootId, lines, ids, i)
    ensures Parsed(Added(h, ids[i], InputOf(lines[i], parentId)), rootId, lines, ids, i + 1)
  {
    assert [rootId] + ids[..i + 1] == [rootId] + ids[..i] + [ids[i]];
    ParentIsKnown(h, rootId, lines, ids, i);
    AddedReflects(h, rootId, lines, ids, i, parentId);
    AddingKeepsTree(h, ids[i], InputOf(lines[i], parentId));
    AddingTouchesTwoNodes(h, ids[i], InputOf(lines[i], parentId));
  }

  lemma Overwrite<K, V>(m: map<K, V>, k: K, a: V, b: V)
    ensures m[k := a][k := b] == m[k := b]
  {
  }

  /** Builds the nearest-smaller-level tree: the nodes are the root and one node per line, in order. */
  method ParseFromText(store: Store, sessionId: string, rootId: string, lines: seq<Line>, ids: seq<string>)
    requires |lines| == |ids| && NoDuplicates([rootId] + ids) && "" !in [rootId] + ids
    modifies store
    ensures sessionId in store.hierarchies
    ensures store.hierarchies == old(store.hierarchies)[sessionId := store.hierarchies[sessionId]]
    ensures Parsed(store.hierarchies[sessionId], rootId, lines, ids, |lines|)
    ensures GroupsReflect(store.hierarchies[sessionId].parallelGroups, lines, ids, |lines|)
  {
    store.Create(sessionId, rootId, "Parsed Task Hierarchy");
    NewHierarchyIsTree(rootId, "Parsed Task Hierarchy");
    ghost var h := NewHierarchy(rootId, "Parsed Task Hierarchy");
    var stack: seq<Frame> := [Frame(rootId, 0)];
    ghost var spine := Over(Base, -1);
    for i := 0 to |lines|
      invariant store.hierarchies == old(store.hierarchies)[sessionId := h]
      invariant Parsed(h, rootId, lines, ids, i) && GroupsReflect(h.parallelGroups, lines, ids, i)
      invariant StackOf(rootId, lines, ids, stack, spine) && TopLine(spine) == i - 1
    {
      stack, spine := PopLarger(rootId, lines, ids, i, stack, spine, lines[i].level);
      var parentId := if stack == [] then rootId else stack[|stack| - 1].id;
      TopIsParent(rootId, lines, ids, i, stack, spine);
      AddedLineIsParsed(h, rootId, lines, ids, i, parentId);
      GroupedReflects(h.parallelGroups, lines, ids, i);
      var ok := store.AddTask(sessionId, ids[i], InputOf(lines[i], parentId));
      ghost var g := Added(h, ids[i], InputOf(lines[i], parentId));
      Overwrite(old(store.hierarchies), sessionId, h, g);
      h := g;
      PushKeepsStack(rootId, lines, ids, i, stack, spine);
      stack, spine := stack + [Frame(ids[i], lines[i].level)], Over(spine, i);
    }
  }

  lemma ParentIsKnown(h: Hierarchy, rootId: string, lines: seq<Line>, ids: seq<string>, i: nat)
    requires |lines| == |ids| && NoDuplicates([rootId] + ids) && "" !in [rootId] + ids && i < |ids|
    requires IsTree(h) && h.order == [rootId] + ids[..i]
    ensures ids[i] !in h.nodes
    ensures ParentOf(rootId, lines, ids, i) in h.nodes && ParentOf(rootId, lines, ids, i) != ""
  {
    var all := [rootId] + ids;
    assert forall k :: 0 <= k <= i ==> h.order[k] == all[k];
    assert all[i + 1] == ids[i];
    assert ids[i] !in h.order;
    match NearestSmaller(lines, i, lines[i].level)
    case None => assert h.order[0] in h.order; assert all[0] in all;
    case Some(k) => assert h.order[k + 1] == ids[k]; assert all[k + 1] in all;
  }
}
