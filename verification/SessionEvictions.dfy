/** Which session a release deletes, and what the fields of a pooled session say about its past: in terms of
    the sessions themselves, on one release and over all runs. */
module SessionEvictions {
  import opened Prelude
  import opened SessionPool
  import opened SessionPoolRuns

  // ---------------------------------------------------------------- one release

  /** The idle sessions of an agent. */
  function IdleOf(p: Pool, agent: string): set<string> {
    set id | id in p.byId && p.byId[id].agent == agent && !p.byId[id].inUse
  }

  /** The session at place `i` of its agent's list is the first of the least recently used idle ones. */
  ghost predicate FirstOfOldest(p: Pool, agent: string, i: nat)
    requires agent in p.byAgent && i < |p.byAgent[agent]|
  {
    var ids := p.byAgent[agent];
    && ids[i] in IdleOf(p, agent)
    && (forall x :: x in IdleOf(p, agent) ==> p.byId[ids[i]].lastUsedAt <= p.byId[x].lastUsedAt)
    && (forall j :: 0 <= j < i && ids[j] in IdleOf(p, agent) ==> p.byId[ids[i]].lastUsedAt < p.byId[ids[j]].lastUsedAt)
  }

  lemma {:induction false} OldestAmong(p: Pool, ids: seq<string>) returns (i: nat)
    requires IdleOnes(p, ids) != [] && forall x :: x in IdleOnes(p, ids) ==> x in p.byId
    ensures i < |ids| && ids[i] == Oldest(p, IdleOnes(p, ids)) && IsIdle(p, ids[i])
    ensures forall j :: 0 <= j < |ids| && IsIdle(p, ids[j]) ==> p.byId[ids[i]].lastUsedAt <= p.byId[ids[j]].lastUsedAt
    ensures forall j :: 0 <= j < i && IsIdle(p, ids[j]) ==> p.byId[ids[i]].lastUsedAt < p.byId[ids[j]].lastUsedAt
    decreases |ids|, 0
  {
    var rest := ids[1..];
    IdleOnesAreKnown(p, rest);
    assert forall j :: 1 <= j < |ids| ==> ids[j] == rest[j - 1];
    if !IsIdle(p, ids[0]) {
      assert IdleOnes(p, ids) == IdleOnes(p, rest);
      i := OldestAmong(p, rest);
      i := i + 1;
    } else {
      assert IdleOnes(p, ids) == [ids[0]] + IdleOnes(p, rest);
      i := OldestOfMore(p, ids, rest);
    }
  }

  lemma {:induction false} OldestOfMore(p: Pool, ids: seq<string>, rest: seq<string>) returns (i: nat)
    requires ids != [] && rest == ids[1..] && IsIdle(p, ids[0])
    requires IdleOnes(p, ids) == [ids[0]] + IdleOnes(p, rest) && forall x :: x in IdleOnes(p, ids) ==> x in p.byId
    ensures i < |ids| && ids[i] == Oldest(p, IdleOnes(p, ids)) && IsIdle(p, ids[i])
    ensures forall j :: 0 <= j < |ids| && IsIdle(p, ids[j]) ==> p.byId[ids[i]].lastUsedAt <= p.byId[ids[j]].lastUsedAt
    ensures forall j :: 0 <= j < i && IsIdle(p, ids[j]) ==> p.byId[ids[i]].lastUsedAt < p.byId[ids[j]].lastUsedAt
    decreases |rest|, 1
  {
    assert forall j :: 1 <= j < |ids| ==> ids[j] == rest[j - 1];
    i := 0;
    if IdleOnes(p, rest) != [] {
      assert IdleOnes(p, ids)[1..] == IdleOnes(p, rest);
      assert forall x :: x in IdleOnes(p, rest) ==> x in p.byId;
      var k := OldestAmong(p, rest);
      if p.byId[ids[0]].lastUsedAt > p.byId[rest[k]].lastUsedAt {
        i := k + 1;
      }
    } else {
      NoneIsIdle(p, rest);
    }
  }

  lemma NoneIsIdle(p: Pool, ids: seq<string>)
    requires IdleOnes(p, ids) == []
    ensures forall j :: 0 <= j < |ids| ==> !IsIdle(p, ids[j])
  {
    IdleOnesAreKnown(p, ids);
    assert forall j :: 0 <= j < |ids| ==> ids[j] in ids;
  }

  lemma IdleOfIsIdle(p: Pool, agent: string)
    requires Consistent(p)
    ensures forall x :: x in IdleOf(p, agent) <==> x in Agents(p, agent) && IsIdle(p, x)
    ensures |IdleOnes(p, Agents(p, agent))| == |IdleOf(p, agent)|
  {
    var ids := Agents(p, agent);
    IdleCount(p, ids);
    forall x ensures x in IdleOf(p, agent) <==> x in ids && IsIdle(p, x) {
    }
    assert IdleOf(p, agent) == set id | id in Elements(ids) && IsIdle(p, id);
  }

  /** Past its reuse maximum or too old. */
  predicate WornOut(s: Session, config: Config, now: int) {
    s.reuseCount >= config.maxReuseCount || now - s.createdAt > 2 * config.idleTimeoutMs
  }

  lemma MakingRoomDeletes(p: Pool, config: Config, agent: string) returns (i: nat)
    requires Consistent(p)
    requires |IdleOf(p, agent)| >= config.maxPoolSizePerAgent && |IdleOf(p, agent)| >= 1
    ensures agent in p.byAgent && i < |p.byAgent[agent]| && FirstOfOldest(p, agent, i)
    ensures MakeRoom(p, config, agent).byId == p.byId - {p.byAgent[agent][i]}
  {
    var ids := Agents(p, agent);
    IdleOfIsIdle(p, agent);
    IdleOnesAreKnown(p, ids);
    i := OldestAmong(p, ids);
    DeleteKeepsConsistent(p, ids[i]);
    forall x | x in IdleOf(p, agent) ensures p.byId[ids[i]].lastUsedAt <= p.byId[x].lastUsedAt {
      var j :| 0 <= j < |ids| && ids[j] == x;
    }
  }

  /** What the first stretch of a release does to the sessions: nothing for an unknown one; it deletes exactly the
      released one if that is worn out; otherwise, if the agent has idle sessions and as many as it may, it deletes
      exactly the first of the least recently used, and else none. */
  lemma ReleaseDeletesExactly(p: Pool, config: Config, id: string, now: int) returns (i: nat)
    requires Consistent(p)
    ensures var (step, q) := BeginRelease(p, config, id, now);
      && (step == NotFound <==> id !in p.byId)
      && (step == Retired <==> id in p.byId && WornOut(p.byId[id], config, now))
      && (step == NotFound ==> q.byId == p.byId)
      && (step == Retired ==> q.byId == p.byId - {id})
      && (step == Resetting ==>
            var agent := p.byId[id].agent;
            if |IdleOf(p, agent)| >= config.maxPoolSizePerAgent && |IdleOf(p, agent)| >= 1 then
              && agent in p.byAgent && i < |p.byAgent[agent]|
              && FirstOfOldest(p, agent, i) && q.byId == p.byId - {p.byAgent[agent][i]}
            else q.byId == p.byId)
  {
    i := 0;
    if id in p.byId {
      var agent := p.byId[id].agent;
      IdleOfIsIdle(p, agent);
      DeleteKeepsConsistent(p, id);
      if |IdleOf(p, agent)| >= config.maxPoolSizePerAgent && |IdleOf(p, agent)| >= 1 {
        i := MakingRoomDeletes(p, config, agent);
      }
    }
  }

  /** The same at every moment of every run. */
  lemma EveryReleaseDeletesExactly(config: Config, events: seq<Event>, id: string, now: int) returns (i: nat)
    requires Possible(EMPTY, config, events) && id in After(EMPTY, config, events).held
    ensures var p := After(EMPTY, config, events).pool;
            var q := Step(After(EMPTY, config, events), config, Release(id, now)).pool;
      if id !in p.byId then q.byId == p.byId
      else if WornOut(p.byId[id], config, now) then q.byId == p.byId - {id}
      else
        var agent := p.byId[id].agent;
        if |IdleOf(p, agent)| >= config.maxPoolSizePerAgent && |IdleOf(p, agent)| >= 1 then
          && agent in p.byAgent && i < |p.byAgent[agent]|
          && FirstOfOldest(p, agent, i) && q.byId == p.byId - {p.byAgent[agent][i]}
        else q.byId == p.byId
  {
    RunKeepsInvariant(EMPTY, config, events);
    i := ReleaseDeletesExactly(After(EMPTY, config, events).pool, config, id, now);
  }

  // ---------------------------------------------------------------- what a session remembers

  /** How often the run hands out `id` again. */
  function HandOuts(w: World, config: Config, events: seq<Event>, id: string): nat
    decreases |events|
  {
    if events == [] then 0
    else (if HandsOut(w, config, events[0], id) then 1 else 0) + HandOuts(Step(w, config, events[0]), config, events[1..], id)
  }

  /** When `id` was last created or handed out, `before` if the run does neither. */
  function LastUse(w: World, config: Config, events: seq<Event>, id: string, before: int): int
    decreases |events|
  {
    if events == [] then before
    else
      var e := events[0];
      LastUse(Step(w, config, e), config, events[1..], id,
              if (e.Created? && e.id == id) || HandsOut(w, config, e, id) then e.now else before)
  }

  /** The creation of `id` in the run. */
  function Creation(events: seq<Event>, id: string): Option<Event> {
    if events == [] then None
    else if events[0].Created? && events[0].id == id then Some(events[0])
    else Creation(events[1..], id)
  }

  /** A pooled session keeps its agent and creation time, counts its hand-outs and knows the last one. */
  ghost predicate Remembers(w: World, id: string, s: Session, handOuts: nat, lastUse: int) {
    id in w.pool.byId ==>
      && w.pool.byId[id].agent == s.agent && w.pool.byId[id].createdAt == s.createdAt
      && w.pool.byId[id].reuseCount == s.reuseCount + handOuts
      && w.pool.byId[id].lastUsedAt == lastUse
  }

  lemma ReuseRemembers(w: World, config: Config, agent: string, now: int, id: string)
    requires id in w.pool.byId
    ensures var v := Step(w, config, Acquire(agent, now));
            var handed := HandsOut(w, config, Acquire(agent, now), id);
      && id in v.pool.byId
      && v.pool.byId[id].agent == w.pool.byId[id].agent && v.pool.byId[id].createdAt == w.pool.byId[id].createdAt
      && v.pool.byId[id].reuseCount == w.pool.byId[id].reuseCount + (if handed then 1 else 0)
      && v.pool.byId[id].lastUsedAt == (if handed then now else w.pool.byId[id].lastUsedAt)
  {
    var _ := FirstAvailableIsFirst(w.pool, Agents(w.pool, agent), config.maxReuseCount);
  }

  lemma StepRemembers(w: World, config: Config, e: Event, id: string, s: Session, handOuts: nat, lastUse: int)
    requires Invariant(w, config) && Enabled(w, e) && id in w.used && Remembers(w, id, s, handOuts, lastUse)
    ensures !(e.Created? && e.id == id)
    ensures Remembers(Step(w, config, e), id, s, handOuts + (if HandsOut(w, config, e, id) then 1 else 0),
                      if HandsOut(w, config, e, id) then e.now else lastUse)
  {
    if id !in w.pool.byId {
      StepAddsOnlyFresh(w, config, e, id);
    } else {
      match e
      case Acquire(agent, now) => ReuseRemembers(w, config, agent, now, id);
      case Release(x, now) =>
        var (step, p) := BeginRelease(w.pool, config, x, now);
        assert id in p.byId ==> p.byId[id] == w.pool.byId[id];
      case _ =>
    }
  }

  lemma {:induction false} RunRemembers(w: World, config: Config, events: seq<Event>, id: string, s: Session, handOuts: nat, lastUse: int)
    requires Invariant(w, config) && Possible(w, config, events)
    requires id in w.used && Remembers(w, id, s, handOuts, lastUse)
    ensures Remembers(After(w, config, events), id, s, handOuts + HandOuts(w, config, events, id),
                      LastUse(w, config, events, id, lastUse))
    decreases |events|
  {
    if events != [] {
      var e := events[0];
      StepRemembers(w, config, e, id, s, handOuts, lastUse);
      StepKeepsInvariant(w, config, e);
      RunRemembers(Step(w, config, e), config, events[1..], id, s,
                   handOuts + (if HandsOut(w, config, e, id) then 1 else 0),
                   if HandsOut(w, config, e, id) then e.now else lastUse);
    }
  }

  lemma BeforeCreation(w: World, config: Config, e: Event, id: string)
    requires Invariant(w, config) && Enabled(w, e) && id !in w.used
    ensures !HandsOut(w, config, e, id)
    ensures !(e.Created? && e.id == id) ==> id !in Step(w, config, e).used
    ensures e.Created? && e.id == id ==>
      var v := Step(w, config, e);
      id in v.used && id in v.pool.byId && v.pool.byId[id] == Session(e.agent, e.now, e.now, 0, true)
  {
    match e
    case Acquire(agent, now) =>
      var _ := FirstAvailableIsFirst(w.pool, Agents(w.pool, agent), config.maxReuseCount);
    case _ =>
  }

  lemma {:induction false} FromCreation(w: World, config: Config, events: seq<Event>, id: string, before: int)
    requires Invariant(w, config) && Possible(w, config, events) && id !in w.used
    requires id in After(w, config, events).pool.byId
    ensures Creation(events, id).Some? && Creation(events, id).value.Created?
    ensures var e := Creation(events, id).value;
      Remembers(After(w, config, events), id, Session(e.agent, e.now, e.now, 0, true),
                HandOuts(w, config, events, id), LastUse(w, config, events, id, before))
    decreases |events|
  {
    var e := events[0];
    BeforeCreation(w, config, e, id);
    StepKeepsInvariant(w, config, e);
    if e.Created? && e.id == id {
      RunRemembers(Step(w, config, e), config, events[1..], id, Session(e.agent, e.now, e.now, 0, true), 0, e.now);
    } else {
      FromCreation(Step(w, config, e), config, events[1..], id, before);
    }
  }

  /** In every run a pooled session belongs to the agent it was created for, knows when it was created and last
      handed out, and counts how often it was handed out again. */
  lemma SessionsRemember(config: Config, events: seq<Event>, id: string)
    requires Possible(EMPTY, config, events) && id in After(EMPTY, config, events).pool.byId
    ensures var s := After(EMPTY, config, events).pool.byId[id];
      && Creation(events, id).Some? && Creation(events, id).value.Created?
      && s.agent == Creation(events, id).value.agent && s.createdAt == Creation(events, id).value.now
      && s.reuseCount == HandOuts(EMPTY, config, events, id)
      && s.lastUsedAt == LastUse(EMPTY, config, events, id, 0)
  {
    FromCreation(EMPTY, config, events, id, 0);
  }

  // ---------------------------------------------------------------- who is handed out

  /** The sessions in the order in which they were created. */
  function CreationOrder(events: seq<Event>): seq<string> {
    if events == [] then [] else (if events[0].Created? then [events[0].id] else []) + CreationOrder(events[1..])
  }

  ghost predicate Before(order: seq<string>, x: string, y: string) {
    exists p, q :: 0 <= p < q < |order| && order[p] == x && order[q] == y
  }

  /** The list names sessions of `order`, in that order. */
  ghost predicate ListedBy(order: seq<string>, ids: seq<string>) {
    && (forall i :: 0 <= i < |ids| ==> ids[i] in order)
    && (forall i, j :: 0 <= i < j < |ids| ==> Before(order, ids[i], ids[j]))
  }

  ghost predicate AllListedBy(order: seq<string>, p: Pool) {
    forall agent :: agent in p.byAgent ==> ListedBy(order, p.byAgent[agent])
  }

  lemma BeforeInLonger(order: seq<string>, id: string, x: string, y: string)
    requires Before(order, x, y)
    ensures Before(order + [id], x, y)
  {
    var p, q :| 0 <= p < q < |order| && order[p] == x && order[q] == y;
    assert (order + [id])[p] == x && (order + [id])[q] == y;
  }

  lemma BeforeNewest(order: seq<string>, id: string, x: string)
    requires x in order
    ensures Before(order + [id], x, id)
  {
    var p :| 0 <= p < |order| && order[p] == x;
    assert (order + [id])[p] == x && (order + [id])[|order|] == id;
  }

  lemma ListedInLonger(order: seq<string>, ids: seq<string>, id: string)
    requires ListedBy(order, ids)
    ensures ListedBy(order + [id], ids) && ListedBy(order + [id], ids + [id])
  {
    forall i, j | 0 <= i < j < |ids + [id]| ensures Before(order + [id], (ids + [id])[i], (ids + [id])[j]) {
      if j < |ids| {
        BeforeInLonger(order, id, ids[i], ids[j]);
      } else {
        BeforeNewest(order, id, ids[i]);
      }
    }
    forall i, j | 0 <= i < j < |ids| ensures Before(order + [id], ids[i], ids[j]) {
      BeforeInLonger(order, id, ids[i], ids[j]);
    }
  }

  lemma {:induction false} WithoutStaysListed(order: seq<string>, ids: seq<string>, id: string)
    requires ListedBy(order, ids)
    ensures ListedBy(order, Without(ids, id))
    ensures forall x :: x in Without(ids, id) ==> x in ids
  {
    if ids != [] {
      var rest := ids[1..];
      assert forall k :: 0 <= k < |rest| ==> rest[k] == ids[k + 1];
      if ids[0] != id {
        WithoutStaysListed(order, rest, id);
        HeadStaysListed(order, ids, Without(rest, id));
      }
    }
  }

  lemma HeadStaysListed(order: seq<string>, ids: seq<string>, left: seq<string>)
    requires ids != [] && ListedBy(order, ids) && ListedBy(order, left) && forall x :: x in left ==> x in ids[1..]
    ensures ListedBy(order, [ids[0]] + left)
  {
    forall i, j | 0 <= i < j < |left| + 1 ensures Before(order, ([ids[0]] + left)[i], ([ids[0]] + left)[j]) {
      if i == 0 {
        assert left[j - 1] in ids[1..];
        var k :| 0 <= k < |ids| - 1 && ids[1..][k] == left[j - 1];
        assert ids[k + 1] == left[j - 1];
      }
    }
  }

  lemma DeleteStaysListed(order: seq<string>, p: Pool, id: string)
    requires AllListedBy(order, p)
    ensures AllListedBy(order, Delete(p, id))
  {
    if id in p.byId && p.byId[id].agent in p.byAgent {
      WithoutStaysListed(order, p.byAgent[p.byId[id].agent], id);
    }
  }

  lemma AddIsListed(order: seq<string>, p: Pool, id: string, agent: string, now: int)
    requires AllListedBy(order, p)
    ensures AllListedBy(order + [id], Add(p, id, agent, now))
  {
    var q := Add(p, id, agent, now);
    forall a | a in q.byAgent ensures ListedBy(order + [id], q.byAgent[a]) {
      ListedInLonger(order, Agents(p, a), id);
    }
  }

  lemma MakingRoomStaysListed(order: seq<string>, p: Pool, config: Config, agent: string)
    requires AllListedBy(order, p)
    ensures AllListedBy(order, MakeRoom(p, config, agent))
  {
    var idle := IdleOnes(p, Agents(p, agent));
    IdleOnesAreKnown(p, Agents(p, agent));
    if idle != [] {
      DeleteStaysListed(order, p, Oldest(p, idle));
    }
  }

  lemma StepStaysListed(order: seq<string>, w: World, config: Config, e: Event)
    requires AllListedBy(order, w.pool)
    ensures AllListedBy(order + (if e.Created? then [e.id] else []), Step(w, config, e).pool)
  {
    assert order + [] == order;
    match e
    case Created(id, agent, now) => AddIsListed(order, w.pool, id, agent, now);
    case Release(id, now) =>
      DeleteStaysListed(order, w.pool, id);
      if id in w.pool.byId {
        MakingRoomStaysListed(order, w.pool, config, w.pool.byId[id].agent);
      }
    case Invalidate(id) => DeleteStaysListed(order, w.pool, id);
    case CleanUpOne(id, now) => DeleteStaysListed(order, w.pool, id);
    case _ =>
  }

  lemma {:induction false} RunStaysListed(order: seq<string>, w: World, config: Config, events: seq<Event>)
    requires AllListedBy(order, w.pool)
    ensures AllListedBy(order + CreationOrder(events), After(w, config, events).pool)
    decreases |events|
  {
    if events == [] {
      assert order + [] == order;
    } else {
      var e := events[0];
      StepStaysListed(order, w, config, e);
      RunStaysListed(order + (if e.Created? then [e.id] else []), Step(w, config, e), config, events[1..]);
      assert (order + (if e.Created? then [e.id] else [])) + CreationOrder(events[1..]) == order + CreationOrder(events);
    }
  }

  /** An idle session of the agent that may be reused. */
  predicate Reusable(p: Pool, config: Config, agent: string, id: string) {
    && id in p.byId && p.byId[id].agent == agent && !p.byId[id].inUse && p.byId[id].reuseCount < config.maxReuseCount
  }

  /** In every run an acquisition hands out, of the agent's idle sessions that may be reused, the one created first,
      and none if and only if there is none. */
  lemma FirstCreatedIsReused(config: Config, events: seq<Event>, agent: string, now: int)
    requires Possible(EMPTY, config, events)
    ensures var p := After(EMPTY, config, events).pool;
      match Reuse(p, config, agent, now).0
      case None => forall x :: !Reusable(p, config, agent, x)
      case Some(id) =>
        Reusable(p, config, agent, id)
        && forall x :: Reusable(p, config, agent, x) && x != id ==> Before(CreationOrder(events), id, x)
  {
    RunKeepsInvariant(EMPTY, config, events);
    RunStaysListed([], EMPTY, config, events);
    assert [] + CreationOrder(events) == CreationOrder(events);
    FirstListedIsReused(CreationOrder(events), After(EMPTY, config, events).pool, config, agent, now);
  }

  lemma ReusableIsListed(p: Pool, config: Config, agent: string, x: string) returns (j: nat)
    requires Consistent(p) && Reusable(p, config, agent, x)
    ensures j < |Agents(p, agent)| && Agents(p, agent)[j] == x && Available(p, x, config.maxReuseCount)
  {
    j :| 0 <= j < |Agents(p, agent)| && Agents(p, agent)[j] == x;
  }

  lemma FirstListedIsReused(order: seq<string>, p: Pool, config: Config, agent: string, now: int)
    requires Consistent(p) && AllListedBy(order, p)
    ensures match Reuse(p, config, agent, now).0
      case None => forall x :: !Reusable(p, config, agent, x)
      case Some(id) =>
        Reusable(p, config, agent, id) && forall x :: Reusable(p, config, agent, x) && x != id ==> Before(order, id, x)
  {
    var ids := Agents(p, agent);
    var k := FirstAvailableIsFirst(p, ids, config.maxReuseCount);
    forall x | Reusable(p, config, agent, x) ensures k < |ids| && (x == ids[k] || Before(order, ids[k], x)) {
      var j := ReusableIsListed(p, config, agent, x);
    }
  }
}
