/** All interleavings of the session pool's clients: consistency of the indexes, exclusive use,
    bounded reuse, and the bound on idle sessions. */
module SessionPoolRuns {
  import opened Prelude
  import opened SessionPool

  /** The pool and its clients: sessions handed out, sessions whose release is between its first and
      last stretch, and all identifiers that the server has given out. */
  datatype World = World(pool: Pool, held: set<string>, releasing: set<string>, used: set<string>)

  datatype Event =
    | Acquire(agent: string, now: int)              // up to the reuse of an idle session
    | Created(id: string, agent: string, now: int)  // the server has created a session for an acquisition
    | Release(id: string, now: int)                 // by the holder, once
    | Released(id: string)                          // the last stretch of that release
    | Invalidate(id: string)
    | CleanUpOne(id: string, now: int)
    | Clear                                         // the end of `shutdown`

  const EMPTY := World(Pool(map[], map[]), {}, {}, {})

  predicate Enabled(w: World, e: Event) {
    match e
    case Created(id, _, _) => id !in w.used
    case Release(id, _) => id in w.held
    case Released(id) => id in w.releasing
    case _ => true
  }

  function Step(w: World, config: Config, e: Event): World {
    match e
    case Acquire(agent, now) =>
      var (id, p) := Reuse(w.pool, config, agent, now);
      w.(pool := p, held := if id.Some? then w.held + {id.value} else w.held)
    case Created(id, agent, now) =>
      World(Add(w.pool, id, agent, now), w.held + {id}, w.releasing, w.used + {id})
    case Release(id, now) =>
      var (step, p) := BeginRelease(w.pool, config, id, now);
      w.(pool := p, held := w.held - {id},
         releasing := if step.Resetting? then w.releasing + {id} else w.releasing)
    case Released(id) => w.(pool := EndRelease(w.pool, id), releasing := w.releasing - {id})
    case Invalidate(id) => w.(pool := Delete(w.pool, id))
    case CleanUpOne(id, now) => w.(pool := CleanUp(w.pool, config, id, now))
    case Clear => w.(pool := Pool(map[], map[]))
  }

  ghost predicate Possible(w: World, config: Config, events: seq<Event>)
    decreases |events|
  {
    events == [] || (Enabled(w, events[0]) && Possible(Step(w, config, events[0]), config, events[1..]))
  }

  function After(w: World, config: Config, events: seq<Event>): World
    decreases |events|
  {
    if events == [] then w else After(Step(w, config, events[0]), config, events[1..])
  }

  // ---------------------------------------------------------------- consistency, exclusiveness, reuse

  /** A pooled session is in use exactly while somebody holds or is still releasing it. */
  ghost predicate Exclusive(w: World) {
    && w.held !! w.releasing
    && w.held + w.releasing + w.pool.byId.Keys <= w.used
    && forall id :: id in w.pool.byId ==> (w.pool.byId[id].inUse <==> id in w.held || id in w.releasing)
  }

  ghost predicate ReuseBounded(w: World, config: Config) {
    forall id :: id in w.pool.byId ==> w.pool.byId[id].reuseCount <= config.maxReuseCount
  }

  ghost predicate Invariant(w: World, config: Config) {
    Consistent(w.pool) && Exclusive(w) && ReuseBounded(w, config)
  }

  /** Deleting sessions that nobody needs keeps the invariant. */
  lemma DeleteKeepsInvariant(w: World, config: Config, id: string)
    requires Invariant(w, config)
    ensures Invariant(w.(pool := Delete(w.pool, id)), config)
  {
    DeleteKeepsConsistent(w.pool, id);
  }

  lemma ReuseKeepsInvariant(w: World, config: Config, agent: string, now: int)
    requires Invariant(w, config)
    ensures Invariant(Step(w, config, Acquire(agent, now)), config)
  {
    var _ := FirstAvailableIsFirst(w.pool, Agents(w.pool, agent), config.maxReuseCount);
    var (id, p) := Reuse(w.pool, config, agent, now);
    if id.Some? {
      UpdateKeepsConsistent(w.pool, id.value, p.byId[id.value]);
    }
  }

  ghost function StartReleasing(w: World, id: string): World {
    w.(held := w.held - {id}, releasing := w.releasing + {id})
  }

  lemma StartReleasingKeepsInvariant(w: World, config: Config, id: string)
    requires Invariant(w, config) && id in w.held
    ensures Invariant(StartReleasing(w, id), config)
  {
  }

  lemma ReleaseKeepsInvariant(w: World, config: Config, id: string, now: int)
    requires Invariant(w, config) && id in w.held
    ensures Invariant(Step(w, config, Release(id, now)), config)
  {
    var (step, p) := BeginRelease(w.pool, config, id, now);
    match step
    case NotFound =>
    case Retired => DeleteKeepsInvariant(w, config, id);
    case Resetting =>
      StartReleasingKeepsInvariant(w, config, id);
      var idle := IdleOnes(w.pool, Agents(w.pool, w.pool.byId[id].agent));
      IdleOnesAreKnown(w.pool, Agents(w.pool, w.pool.byId[id].agent));
      if idle != [] {
        DeleteKeepsInvariant(StartReleasing(w, id), config, Oldest(w.pool, idle));
      }
  }

  lemma CreatedKeepsInvariant(w: World, config: Config, id: string, agent: string, now: int)
    requires Invariant(w, config) && id !in w.used
    ensures Invariant(Step(w, config, Created(id, agent, now)), config)
  {
    AddKeepsConsistent(w.pool, id, agent, now);
  }

  lemma ReleasedKeepsInvariant(w: World, config: Config, id: string)
    requires Invariant(w, config) && id in w.releasing
    ensures Invariant(Step(w, config, Released(id)), config)
  {
    if id in w.pool.byId {
      UpdateKeepsConsistent(w.pool, id, w.pool.byId[id].(inUse := false));
    }
  }

  lemma StepKeepsInvariant(w: World, config: Config, e: Event)
    requires Invariant(w, config) && Enabled(w, e)
    ensures Invariant(Step(w, config, e), config)
  {
    match e
    case Acquire(agent, now) => ReuseKeepsInvariant(w, config, agent, now);
    case Created(id, agent, now) => CreatedKeepsInvariant(w, config, id, agent, now);
    case Release(id, now) => ReleaseKeepsInvariant(w, config, id, now);
    case Released(id) => ReleasedKeepsInvariant(w, config, id);
    case Invalidate(id) => DeleteKeepsInvariant(w, config, id);
    case CleanUpOne(id, now) => DeleteKeepsInvariant(w, config, id);
    case Clear =>
  }

  lemma {:induction false} RunKeepsInvariant(w: World, config: Config, events: seq<Event>)
    requires Invariant(w, config) && Possible(w, config, events)
    ensures Invariant(After(w, config, events), config)
    decreases |events|
  {
    if events != [] {
      StepKeepsInvariant(w, config, events[0]);
      RunKeepsInvariant(Step(w, config, events[0]), config, events[1..]);
    }
  }

  /** In every run both indexes hold the same sessions, each exactly in its own agent's list,
      and no session is reused more often than configured. */
  lemma IndexesAgree(config: Config, events: seq<Event>)
    requires Possible(EMPTY, config, events)
    ensures var w := After(EMPTY, config, events);
            Consistent(w.pool) && ReuseBounded(w, config)
  {
    RunKeepsInvariant(EMPTY, config, events);
  }

  /** Given that every holder releases once, a session is handed out only when nobody holds it and
      nobody is still releasing it; it is then one of the requested agent's. */
  lemma HandedOutExclusively(config: Config, events: seq<Event>, agent: string, now: int)
    requires Possible(EMPTY, config, events)
    ensures var w := After(EMPTY, config, events);
            var (id, p) := Reuse(w.pool, config, agent, now);
            id.Some? ==>
              && id.value !in w.held && id.value !in w.releasing
              && id.value in p.byId && p.byId[id.value].agent == agent && p.byId[id.value].inUse
  {
    RunKeepsInvariant(EMPTY, config, events);
    var _ := FirstAvailableIsFirst(After(EMPTY, config, events).pool,
                          Agents(After(EMPTY, config, events).pool, agent), config.maxReuseCount);
  }

  // ---------------------------------------------------------------- cleanup among other stretches

  predicate HandsOut(w: World, config: Config, e: Event, id: string) {
    e.Acquire? && Reuse(w.pool, config, e.agent, e.now).0 == Some(id)
  }

  /** No acquisition of the run hands out `id`. */
  ghost predicate NeverHandedOut(w: World, config: Config, events: seq<Event>, id: string)
    decreases |events|
  {
    events == [] ||
    (!HandsOut(w, config, events[0], id) && NeverHandedOut(Step(w, config, events[0]), config, events[1..], id))
  }

  lemma StepAddsOnlyFresh(w: World, config: Config, e: Event, id: string)
    requires Invariant(w, config) && Enabled(w, e) && id in w.used && id !in w.pool.byId
    ensures id !in Step(w, config, e).pool.byId && id in Step(w, config, e).used
  {
    match e
    case Release(x, now) =>
      var (step, p) := BeginRelease(w.pool, config, x, now);
      assert p.byId.Keys <= w.pool.byId.Keys;
    case _ =>
  }

  lemma {:induction false} GoneForGood(w: World, config: Config, events: seq<Event>, id: string)
    requires Invariant(w, config) && Possible(w, config, events) && id in w.used && id !in w.pool.byId
    ensures id !in After(w, config, events).pool.byId
    decreases |events|
  {
    if events != [] {
      StepAddsOnlyFresh(w, config, events[0], id);
      StepKeepsInvariant(w, config, events[0]);
      GoneForGood(Step(w, config, events[0]), config, events[1..], id);
    }
  }

  lemma IdleStaysAsItIs(w: World, config: Config, e: Event, id: string)
    requires Invariant(w, config) && Enabled(w, e) && IsIdle(w.pool, id) && !HandsOut(w, config, e, id)
    ensures id in Step(w, config, e).pool.byId ==> Step(w, config, e).pool.byId[id] == w.pool.byId[id]
  {
    match e
    case Release(x, now) =>
      var (step, p) := BeginRelease(w.pool, config, x, now);
      assert id in p.byId ==> p.byId[id] == w.pool.byId[id];
    case _ =>
  }

  /** A session that is stale when a cleanup starts is gone by its end, whatever happens between the rounds,
      unless it is handed out in the meantime. */
  lemma {:induction false} StaleSessionsGo(w: World, config: Config, events: seq<Event>, id: string, now: int)
    requires Invariant(w, config) && Possible(w, config, events)
    requires id in w.pool.byId && IsStale(w.pool.byId[id], config, now)
    requires CleanUpOne(id, now) in events && NeverHandedOut(w, config, events, id)
    ensures id !in After(w, config, events).pool.byId
    decreases |events|
  {
    var v := Step(w, config, events[0]);
    StepKeepsInvariant(w, config, events[0]);
    assert v.used >= w.used;
    if events[0] == CleanUpOne(id, now) {
      CleanUpRemovesOne(w.pool, config, id, now);
    } else {
      IdleStaysAsItIs(w, config, events[0], id);
      assert events == [events[0]] + events[1..];
    }
    if id in v.pool.byId {
      StaleSessionsGo(v, config, events[1..], id, now);
    } else {
      GoneForGood(v, config, events[1..], id);
    }
  }

  // ---------------------------------------------------------------- the bound on idle sessions

  ghost function Elements(s: seq<string>): set<string> {
    set x | x in s
  }

  ghost function IdleSet(p: Pool, agent: string): set<string> {
    set id | id in Elements(Agents(p, agent)) && IsIdle(p, id)
  }

  /** The sessions of `agent` that are between the two stretches of a release. */
  ghost function ReleasingSet(w: World, agent: string): set<string> {
    Elements(Agents(w.pool, agent)) * w.releasing
  }

  lemma {:induction false} IdleCount(p: Pool, ids: seq<string>)
    requires NoDuplicates(ids)
    ensures |IdleOnes(p, ids)| == |set id | id in Elements(ids) && IsIdle(p, id)|
  {
    var all := set id | id in Elements(ids) && IsIdle(p, id);
    if ids == [] {
      assert all == {};
    } else {
      var rest := ids[1..];
      assert forall k :: 0 <= k < |rest| ==> rest[k] == ids[k + 1];
      IdleCount(p, rest);
      assert ids == [ids[0]] + rest;
      var smaller := set id | id in Elements(rest) && IsIdle(p, id);
      assert ids[0] !in rest;
      assert all == if IsIdle(p, ids[0]) then smaller + {ids[0]} else smaller;
    }
  }

  /** With at most `overlap` releases of one agent under way at a time, this many sessions of the
      agent can be idle or about to become idle. */
  function Bound(config: Config, overlap: nat): int {
    (if config.maxPoolSizePerAgent > 1 then config.maxPoolSizePerAgent else 1) - 1 + overlap
  }

  ghost predicate Overlaps(w: World, agent: string, overlap: nat) {
    |ReleasingSet(w, agent)| <= overlap
  }

  /** The sessions of `agent` that are idle or about to become idle. */
  ghost function Returning(w: World, agent: string): nat {
    |IdleSet(w.pool, agent)| + |ReleasingSet(w, agent)|
  }

  ghost predicate WithinBound(w: World, agent: string, bound: int) {
    Returning(w, agent) <= bound
  }

  /** At no time during the run are more than `overlap` releases of `agent` under way. */
  ghost predicate NeverOverlapsMore(w: World, config: Config, events: seq<Event>, agent: string, overlap: nat)
    decreases |events|
  {
    Overlaps(w, agent, overlap) &&
    (events == [] || NeverOverlapsMore(Step(w, config, events[0]), config, events[1..], agent, overlap))
  }

  lemma SmallerSets(a: set<string>, b: set<string>)
    requires a <= b
    ensures |a| <= |b|
  {
    assert b == a + (b - a);
  }

  lemma DeleteFromSets(w: World, id: string, agent: string)
    requires Consistent(w.pool)
    ensures IdleSet(Delete(w.pool, id), agent) == IdleSet(w.pool, agent) - {id}
    ensures ReleasingSet(w.(pool := Delete(w.pool, id)), agent) == ReleasingSet(w, agent) - {id}
  {
    DeleteKeepsConsistent(w.pool, id);
    var p := Delete(w.pool, id);
    assert Elements(Agents(p, agent)) == Elements(Agents(w.pool, agent)) - {id};
    assert forall x :: IsIdle(p, x) <==> IsIdle(w.pool, x) && x != id;
  }

  lemma EndReleaseInSets(w: World, id: string, agent: string)
    requires Consistent(w.pool)
    ensures Agents(EndRelease(w.pool, id), agent) == Agents(w.pool, agent)
    ensures IdleSet(EndRelease(w.pool, id), agent)
         == IdleSet(w.pool, agent) + (if id in Agents(w.pool, agent) then {id} else {})
  {
  }

  /** Deletions only shrink both sets. */
  lemma DeleteStaysWithinBound(w: World, config: Config, id: string, agent: string, bound: int)
    requires Invariant(w, config) && WithinBound(w, agent, bound)
    ensures WithinBound(w.(pool := Delete(w.pool, id)), agent, bound)
  {
    DeleteKeepsConsistent(w.pool, id);
    var v := w.(pool := Delete(w.pool, id));
    SmallerSets(IdleSet(v.pool, agent), IdleSet(w.pool, agent));
    SmallerSets(ReleasingSet(v, agent), ReleasingSet(w, agent));
  }

  lemma ReuseStaysWithinBound(w: World, config: Config, a: string, now: int, agent: string, bound: int)
    requires Invariant(w, config) && WithinBound(w, agent, bound)
    ensures WithinBound(Step(w, config, Acquire(a, now)), agent, bound)
  {
    var _ := FirstAvailableIsFirst(w.pool, Agents(w.pool, a), config.maxReuseCount);
    var v := Step(w, config, Acquire(a, now));
    SmallerSets(IdleSet(v.pool, agent), IdleSet(w.pool, agent));
    assert ReleasingSet(v, agent) == ReleasingSet(w, agent);
  }

  /** A new session is neither idle nor being released. */
  lemma CreatedInSets(w: World, config: Config, id: string, a: string, now: int, agent: string)
    requires Invariant(w, config) && id !in w.used
    requires forall x :: x in Agents(Add(w.pool, id, a, now), agent) <==> x in Agents(w.pool, agent) || (agent == a && x == id)
    ensures var v := Step(w, config, Created(id, a, now));
            IdleSet(v.pool, agent) == IdleSet(w.pool, agent) && ReleasingSet(v, agent) == ReleasingSet(w, agent)
  {
  }

  lemma CreatedStaysWithinBound(w: World, config: Config, id: string, a: string, now: int, agent: string, bound: int)
    requires Invariant(w, config) && id !in w.used && WithinBound(w, agent, bound)
    ensures WithinBound(Step(w, config, Created(id, a, now)), agent, bound)
  {
    AddKeepsConsistent(w.pool, id, a, now);
    CreatedInSets(w, config, id, a, now, agent);
  }

  lemma EndReleasing(w: World, config: Config, id: string, agent: string)
    requires id in w.releasing
    ensures Agents(Step(w, config, Released(id)).pool, agent) == Agents(w.pool, agent)
    ensures ReleasingSet(Step(w, config, Released(id)), agent) == ReleasingSet(w, agent) - {id}
    ensures id in ReleasingSet(w, agent) <==> id in Agents(w.pool, agent)
  {
  }

  lemma ReleasedStaysWithinBound(w: World, config: Config, id: string, agent: string, bound: int)
    requires Invariant(w, config) && id in w.releasing && WithinBound(w, agent, bound)
    ensures WithinBound(Step(w, config, Released(id)), agent, bound)
  {
    EndReleaseInSets(w, id, agent);
    EndReleasing(w, config, id, agent);
  }

  /** A release that does not return a session of this agent to the pool. */
  lemma OtherReleaseStaysWithinBound(w: World, config: Config, id: string, now: int, agent: string, bound: int)
    requires Invariant(w, config) && id in w.held && WithinBound(w, agent, bound)
    requires !(Returnable(w, config, id, now) && w.pool.byId[id].agent == agent)
    ensures WithinBound(Step(w, config, Release(id, now)), agent, bound)
  {
    var v := Step(w, config, Release(id, now));
    var (step, p) := BeginRelease(w.pool, config, id, now);
    if step.Retired? {
      DeleteStaysWithinBound(w, config, id, agent, bound);
      assert ReleasingSet(v, agent) == ReleasingSet(w.(pool := p), agent);
    } else if step.Resetting? {
      OtherAgentStaysWithinBound(w, config, id, now, agent, bound);
    } else {
      assert ReleasingSet(v, agent) == ReleasingSet(w, agent);
    }
  }

  lemma OtherAgentStaysWithinBound(w: World, config: Config, id: string, now: int, agent: string, bound: int)
    requires Invariant(w, config) && Returnable(w, config, id, now) && w.pool.byId[id].agent != agent
    requires WithinBound(w, agent, bound)
    ensures WithinBound(Step(w, config, Release(id, now)), agent, bound)
  {
    var a := w.pool.byId[id].agent;
    var idle := |IdleSet(w.pool, a)|;
    if idle < config.maxPoolSizePerAgent || idle == 0 {
      BeginsWithRoom(w, config, id, now);
      OtherReleasesUntouched(w, config, id, agent);
    } else {
      var victim := BeginsByDeleting(w, config, id, now);
      OtherReleasesUntouched(w, config, id, agent);
      StartReleasingKeepsInvariant(w, config, id);
      DeleteStaysWithinBound(StartReleasing(w, id), config, victim, agent, bound);
    }
  }

  lemma OtherReleasesUntouched(w: World, config: Config, id: string, agent: string)
    requires Invariant(w, config) && id in w.pool.byId && w.pool.byId[id].agent != agent
    ensures ReleasingSet(StartReleasing(w, id), agent) == ReleasingSet(w, agent)
  {
    assert id !in Agents(w.pool, agent);
  }

  /** A held session that its release will return to the pool. */
  ghost predicate Returnable(w: World, config: Config, id: string, now: int) {
    && id in w.held && id in w.pool.byId
    && w.pool.byId[id].reuseCount < config.maxReuseCount
    && now - w.pool.byId[id].createdAt <= config.idleTimeoutMs * 2
  }

  /** While an agent has room, a release begins without deleting anything. */
  lemma BeginsWithRoom(w: World, config: Config, id: string, now: int)
    requires Invariant(w, config) && Returnable(w, config, id, now)
    requires var idle := |IdleSet(w.pool, w.pool.byId[id].agent)|;
             idle < config.maxPoolSizePerAgent || idle == 0
    ensures Step(w, config, Release(id, now)) == StartReleasing(w, id)
  {
    var a := w.pool.byId[id].agent;
    var ids := Agents(w.pool, a);
    IdleCount(w.pool, ids);
    assert IdleSet(w.pool, a) == set x | x in Elements(ids) && IsIdle(w.pool, x);
  }

  /** Starting a release adds the session to those that are about to become idle. */
  lemma StartReleasingInSets(w: World, config: Config, id: string)
    requires Invariant(w, config) && id in w.held && id in w.pool.byId
    ensures var t := StartReleasing(w, id);
            var a := w.pool.byId[id].agent;
            IdleSet(t.pool, a) == IdleSet(w.pool, a) && ReleasingSet(t, a) == ReleasingSet(w, a) + {id}
            && id !in ReleasingSet(w, a) && id !in IdleSet(w.pool, a)
  {
    assert id in Agents(w.pool, w.pool.byId[id].agent);
  }

  /** Without room, the release begins by deleting an idle session of the agent. */
  lemma BeginsByDeleting(w: World, config: Config, id: string, now: int) returns (victim: string)
    requires Invariant(w, config) && Returnable(w, config, id, now)
    requires var idle := |IdleSet(w.pool, w.pool.byId[id].agent)|;
             idle >= config.maxPoolSizePerAgent && idle != 0
    ensures IsIdle(w.pool, victim) && w.pool.byId[victim].agent == w.pool.byId[id].agent
    ensures Step(w, config, Release(id, now)) == StartReleasing(w, id).(pool := Delete(w.pool, victim))
  {
    var a := w.pool.byId[id].agent;
    var ids := Agents(w.pool, a);
    IdleOnesAreKnown(w.pool, ids);
    IdleCount(w.pool, ids);
    assert IdleSet(w.pool, a) == set x | x in Elements(ids) && IsIdle(w.pool, x);
    victim := Oldest(w.pool, IdleOnes(w.pool, ids));
  }

  lemma BeginsByMakingRoom(w: World, config: Config, id: string, now: int)
    requires Invariant(w, config) && Returnable(w, config, id, now)
    requires var idle := |IdleSet(w.pool, w.pool.byId[id].agent)|;
             idle >= config.maxPoolSizePerAgent && idle != 0
    ensures var a := w.pool.byId[id].agent; Returning(Step(w, config, Release(id, now)), a) == Returning(w, a)
  {
    var a := w.pool.byId[id].agent;
    var victim := BeginsByDeleting(w, config, id, now);
    var u := StartReleasing(w, id);
    StartReleasingInSets(w, config, id);
    DeleteFromSets(u, victim, a);
    assert victim in Agents(w.pool, a);
    assert victim in IdleSet(w.pool, a) && victim !in ReleasingSet(u, a);
    assert ReleasingSet(u, a) - {victim} == ReleasingSet(u, a);
  }

  /** A release begins within the bound: it makes room first when the agent's pool is full. */
  lemma ReleaseStaysWithinBound(w: World, config: Config, id: string, now: int, agent: string, overlap: nat)
    requires Invariant(w, config) && id in w.held && WithinBound(w, agent, Bound(config, overlap))
    requires 1 <= overlap
    ensures Overlaps(Step(w, config, Release(id, now)), agent, overlap)
        ==> WithinBound(Step(w, config, Release(id, now)), agent, Bound(config, overlap))
  {
    if Returnable(w, config, id, now) && w.pool.byId[id].agent == agent {
      var idle := |IdleSet(w.pool, agent)|;
      if idle < config.maxPoolSizePerAgent || idle == 0 {
        BeginsWithRoom(w, config, id, now);
        StartReleasingInSets(w, config, id);
      } else {
        BeginsByMakingRoom(w, config, id, now);
      }
    } else {
      OtherReleaseStaysWithinBound(w, config, id, now, agent, Bound(config, overlap));
    }
  }

  /** Only a release can add to the returning sessions. */
  lemma OtherStepStaysWithinBound(w: World, config: Config, e: Event, agent: string, bound: nat)
    requires Invariant(w, config) && Enabled(w, e) && !e.Release? && WithinBound(w, agent, bound)
    ensures WithinBound(Step(w, config, e), agent, bound)
  {
    match e
    case Acquire(a, now) => ReuseStaysWithinBound(w, config, a, now, agent, bound);
    case Created(id, a, now) => CreatedStaysWithinBound(w, config, id, a, now, agent, bound);
    case Released(id) => ReleasedStaysWithinBound(w, config, id, agent, bound);
    case Invalidate(id) => DeleteStaysWithinBound(w, config, id, agent, bound);
    case CleanUpOne(id, now) => DeleteStaysWithinBound(w, config, id, agent, bound);
    case Clear =>
      assert IdleSet(Pool(map[], map[]), agent) == {};
      assert ReleasingSet(Step(w, config, e), agent) == {};
  }

  lemma {:induction false} RunStaysWithinBound(w: World, config: Config, events: seq<Event>, agent: string, overlap: nat)
    requires Invariant(w, config) && Possible(w, config, events) && WithinBound(w, agent, Bound(config, overlap))
    requires 1 <= overlap && NeverOverlapsMore(w, config, events, agent, overlap)
    ensures WithinBound(After(w, config, events), agent, Bound(config, overlap))
    decreases |events|
  {
    if events != [] {
      var e := events[0];
      var v := Step(w, config, e);
      assert Overlaps(v, agent, overlap);
      StepKeepsInvariant(w, config, e);
      if e.Release? {
        ReleaseStaysWithinBound(w, config, e.id, e.now, agent, overlap);
      } else {
        OtherStepStaysWithinBound(w, config, e, agent, Bound(config, overlap));
      }
      RunStaysWithinBound(v, config, events[1..], agent, overlap);
    }
  }

  /** In every run in which at most `overlap` releases of an agent overlap, its idle sessions number
      at most `max(maxPoolSizePerAgent, 1) - 1 + overlap`. */
  lemma IdleSessionsAreBounded(config: Config, events: seq<Event>, agent: string, overlap: nat)
    requires Possible(EMPTY, config, events)
    requires 1 <= overlap && NeverOverlapsMore(EMPTY, config, events, agent, overlap)
    ensures |IdleSet(After(EMPTY, config, events).pool, agent)| <= Bound(config, overlap)
  {
    assert IdleSet(EMPTY.pool, agent) == {} && ReleasingSet(EMPTY, agent) == {};
    RunStaysWithinBound(EMPTY, config, events, agent, overlap);
  }

  /** So with non-overlapping releases and a maximum of at least 1, the maximum is respected. */
  lemma PoolSizeIsRespected(config: Config, events: seq<Event>, agent: string)
    requires Possible(EMPTY, config, events) && 1 <= config.maxPoolSizePerAgent
    requires NeverOverlapsMore(EMPTY, config, events, agent, 1)
    ensures |IdleSet(After(EMPTY, config, events).pool, agent)| <= config.maxPoolSizePerAgent
  {
    IdleSessionsAreBounded(config, events, agent, 1);
  }
}
