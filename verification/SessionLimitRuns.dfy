/** When the maximum of idle sessions per agent is exceeded: the exact condition on one release, on whole
    runs, and runs that do exceed it. */
module SessionLimitRuns {
  import opened Prelude
  import opened SessionPool
  import opened SessionPoolRuns

  /** The release that exceeds the maximum: as many sessions as allowed are idle or about to become idle,
      and either another release of the agent is under way or the maximum is 0. */
  ghost predicate Exceeding(w: World, config: Config, e: Event, agent: string) {
    && e.Release? && Returnable(w, config, e.id, e.now) && w.pool.byId[e.id].agent == agent
    && Returning(w, agent) == config.maxPoolSizePerAgent
    && (ReleasingSet(w, agent) != {} || config.maxPoolSizePerAgent == 0)
  }

  /** Exactly which release takes an agent that is within its maximum beyond it. */
  lemma ReleaseExceedsExactly(w: World, config: Config, id: string, now: int)
    requires Invariant(w, config) && Returnable(w, config, id, now)
    requires Returning(w, w.pool.byId[id].agent) <= config.maxPoolSizePerAgent
    ensures Returning(Step(w, config, Release(id, now)), w.pool.byId[id].agent) > config.maxPoolSizePerAgent
       <==> Exceeding(w, config, Release(id, now), w.pool.byId[id].agent)
  {
    var a := w.pool.byId[id].agent;
    var idle := |IdleSet(w.pool, a)|;
    if idle < config.maxPoolSizePerAgent || idle == 0 {
      BeginsWithRoom(w, config, id, now);
      StartReleasingInSets(w, config, id);
    } else {
      BeginsByMakingRoom(w, config, id, now);
    }
  }

  lemma StepExceedsExactly(w: World, config: Config, e: Event, agent: string)
    requires Invariant(w, config) && Enabled(w, e) && WithinBound(w, agent, config.maxPoolSizePerAgent)
    ensures !WithinBound(Step(w, config, e), agent, config.maxPoolSizePerAgent) <==> Exceeding(w, config, e, agent)
  {
    if !e.Release? {
      OtherStepStaysWithinBound(w, config, e, agent, config.maxPoolSizePerAgent);
    } else if Returnable(w, config, e.id, e.now) && w.pool.byId[e.id].agent == agent {
      ReleaseExceedsExactly(w, config, e.id, e.now);
    } else {
      OtherReleaseStaysWithinBound(w, config, e.id, e.now, agent, config.maxPoolSizePerAgent);
    }
  }

  /** At no moment of the run are more sessions of `agent` idle or about to become idle than allowed. */
  ghost predicate NeverExceeds(w: World, config: Config, events: seq<Event>, agent: string)
    decreases |events|
  {
    WithinBound(w, agent, config.maxPoolSizePerAgent) &&
    (events == [] || NeverExceeds(Step(w, config, events[0]), config, events[1..], agent))
  }

  ghost predicate NothingExceeding(w: World, config: Config, events: seq<Event>, agent: string)
    decreases |events|
  {
    events == [] ||
    (!Exceeding(w, config, events[0], agent) && NothingExceeding(Step(w, config, events[0]), config, events[1..], agent))
  }

  lemma {:induction false} StaysWithinExactly(w: World, config: Config, events: seq<Event>, agent: string)
    requires Invariant(w, config) && Possible(w, config, events)
    requires WithinBound(w, agent, config.maxPoolSizePerAgent)
    ensures NeverExceeds(w, config, events, agent) <==> NothingExceeding(w, config, events, agent)
    ensures NeverExceeds(w, config, events, agent) ==> WithinBound(After(w, config, events), agent, config.maxPoolSizePerAgent)
    decreases |events|
  {
    if events != [] {
      var v := Step(w, config, events[0]);
      StepExceedsExactly(w, config, events[0], agent);
      if WithinBound(v, agent, config.maxPoolSizePerAgent) {
        StepKeepsInvariant(w, config, events[0]);
        StaysWithinExactly(v, config, events[1..], agent);
      }
    }
  }

  /** No more sessions of an agent are ever idle or about to become idle than allowed if and only if no
      release of that kind occurs. */
  lemma MaximumIsRespectedExactly(config: Config, events: seq<Event>, agent: string)
    requires Possible(EMPTY, config, events)
    ensures NeverExceeds(EMPTY, config, events, agent) <==> NothingExceeding(EMPTY, config, events, agent)
    ensures NothingExceeding(EMPTY, config, events, agent)
        ==> |IdleSet(After(EMPTY, config, events).pool, agent)| <= config.maxPoolSizePerAgent
  {
    assert IdleSet(EMPTY.pool, agent) == {} && ReleasingSet(EMPTY, agent) == {};
    StaysWithinExactly(EMPTY, config, events, agent);
  }

  // ---------------------------------------------------------------- the idle sessions alone

  /** The end of a release that finds as many sessions of the agent idle as allowed. */
  ghost predicate Overfilling(w: World, config: Config, e: Event, agent: string) {
    e.Released? && e.id in Agents(w.pool, agent) && |IdleSet(w.pool, agent)| == config.maxPoolSizePerAgent
  }

  lemma DeleteShrinksIdle(w: World, config: Config, id: string, agent: string)
    requires Invariant(w, config)
    ensures |IdleSet(Delete(w.pool, id), agent)| <= |IdleSet(w.pool, agent)|
  {
    DeleteFromSets(w, id, agent);
    SmallerSets(IdleSet(w.pool, agent) - {id}, IdleSet(w.pool, agent));
  }

  lemma ReuseShrinksIdle(w: World, config: Config, a: string, now: int, agent: string)
    requires Invariant(w, config)
    ensures |IdleSet(Step(w, config, Acquire(a, now)).pool, agent)| <= |IdleSet(w.pool, agent)|
  {
    var _ := FirstAvailableIsFirst(w.pool, Agents(w.pool, a), config.maxReuseCount);
    SmallerSets(IdleSet(Step(w, config, Acquire(a, now)).pool, agent), IdleSet(w.pool, agent));
  }

  lemma ReleaseShrinksIdle(w: World, config: Config, id: string, now: int, agent: string)
    requires Invariant(w, config) && id in w.held
    ensures |IdleSet(Step(w, config, Release(id, now)).pool, agent)| <= |IdleSet(w.pool, agent)|
  {
    var (step, p) := BeginRelease(w.pool, config, id, now);
    if step.Retired? {
      DeleteShrinksIdle(w, config, id, agent);
    } else if step.Resetting? {
      var idle := |IdleSet(w.pool, w.pool.byId[id].agent)|;
      if idle < config.maxPoolSizePerAgent || idle == 0 {
        BeginsWithRoom(w, config, id, now);
      } else {
        var victim := BeginsByDeleting(w, config, id, now);
        DeleteShrinksIdle(w, config, victim, agent);
      }
    }
  }

  lemma ReleasedAddsIdle(w: World, config: Config, id: string, agent: string)
    requires Invariant(w, config) && id in w.releasing
    ensures |IdleSet(Step(w, config, Released(id)).pool, agent)|
         == |IdleSet(w.pool, agent)| + (if id in Agents(w.pool, agent) then 1 else 0)
  {
    EndReleaseInSets(w, id, agent);
    assert id in Agents(w.pool, agent) ==> id !in IdleSet(w.pool, agent);
  }

  /** Exactly which step takes the idle sessions of an agent beyond the maximum. */
  lemma IdleExceedsExactly(w: World, config: Config, e: Event, agent: string)
    requires Invariant(w, config) && Enabled(w, e) && |IdleSet(w.pool, agent)| <= config.maxPoolSizePerAgent
    ensures |IdleSet(Step(w, config, e).pool, agent)| > config.maxPoolSizePerAgent <==> Overfilling(w, config, e, agent)
  {
    match e
    case Acquire(a, now) => ReuseShrinksIdle(w, config, a, now, agent);
    case Created(id, a, now) =>
      AddKeepsConsistent(w.pool, id, a, now);
      CreatedInSets(w, config, id, a, now, agent);
    case Release(id, now) => ReleaseShrinksIdle(w, config, id, now, agent);
    case Released(id) => ReleasedAddsIdle(w, config, id, agent);
    case Invalidate(id) => DeleteShrinksIdle(w, config, id, agent);
    case CleanUpOne(id, now) => DeleteShrinksIdle(w, config, id, agent);
    case Clear => assert IdleSet(Pool(map[], map[]), agent) == {};
  }

  /** At no moment of the run are more sessions of `agent` idle than allowed. */
  ghost predicate IdleStaysWithin(w: World, config: Config, events: seq<Event>, agent: string)
    decreases |events|
  {
    |IdleSet(w.pool, agent)| <= config.maxPoolSizePerAgent &&
    (events == [] || IdleStaysWithin(Step(w, config, events[0]), config, events[1..], agent))
  }

  ghost predicate NothingOverfilling(w: World, config: Config, events: seq<Event>, agent: string)
    decreases |events|
  {
    events == [] ||
    (!Overfilling(w, config, events[0], agent) && NothingOverfilling(Step(w, config, events[0]), config, events[1..], agent))
  }

  lemma {:induction false} IdleWithinExactly(w: World, config: Config, events: seq<Event>, agent: string)
    requires Invariant(w, config) && Possible(w, config, events)
    requires |IdleSet(w.pool, agent)| <= config.maxPoolSizePerAgent
    ensures IdleStaysWithin(w, config, events, agent) <==> NothingOverfilling(w, config, events, agent)
    decreases |events|
  {
    if events != [] {
      var e := events[0];
      IdleExceedsExactly(w, config, e, agent);
      if !Overfilling(w, config, e, agent) {
        StepKeepsInvariant(w, config, e);
        IdleWithinExactly(Step(w, config, e), config, events[1..], agent);
      }
    }
  }

  /** The idle sessions of an agent never exceed its maximum if and only if no release ends while as many
      are idle as allowed. */
  lemma IdleMaximumIsRespectedExactly(config: Config, events: seq<Event>, agent: string)
    requires Possible(EMPTY, config, events)
    ensures IdleStaysWithin(EMPTY, config, events, agent) <==> NothingOverfilling(EMPTY, config, events, agent)
  {
    assert IdleSet(EMPTY.pool, agent) == {};
    IdleWithinExactly(EMPTY, config, events, agent);
  }

  /** The ends of the releases named by `ids`. */
  function Endings(ids: seq<string>): seq<Event> {
    if ids == [] then [] else [Released(ids[0])] + Endings(ids[1..])
  }

  lemma {:induction false} EndingsReturnAll(w: World, config: Config, ids: seq<string>, agent: string)
    requires Invariant(w, config) && NoDuplicates(ids) && Elements(ids) == ReleasingSet(w, agent)
    ensures Possible(w, config, Endings(ids))
    ensures |IdleSet(After(w, config, Endings(ids)).pool, agent)| == Returning(w, agent)
    decreases |ids|
  {
    if ids == [] {
      assert ReleasingSet(w, agent) == {};
    } else {
      var id, rest := ids[0], ids[1..];
      var v := Step(w, config, Released(id));
      assert id in Elements(ids);
      StepKeepsInvariant(w, config, Released(id));
      ReleasedAddsIdle(w, config, id, agent);
      EndReleasing(w, config, id, agent);
      RestOf(ids);
      assert Endings(ids)[1..] == Endings(rest);
      EndingsReturnAll(v, config, rest, agent);
    }
  }

  lemma RestOf(ids: seq<string>)
    requires ids != [] && NoDuplicates(ids)
    ensures NoDuplicates(ids[1..]) && Elements(ids[1..]) == Elements(ids) - {ids[0]}
  {
    assert ids == [ids[0]] + ids[1..];
    assert forall k :: 0 <= k < |ids| - 1 ==> ids[1..][k] == ids[k + 1];
  }

  /** If the releases under way end, and nothing else happens, the idle sessions pass the maximum exactly
      when the idle and the returning ones together do. */
  lemma EndingsExceedExactly(w: World, config: Config, ids: seq<string>, agent: string)
    requires Invariant(w, config) && NoDuplicates(ids) && Elements(ids) == ReleasingSet(w, agent)
    ensures |IdleSet(After(w, config, Endings(ids)).pool, agent)| > config.maxPoolSizePerAgent
       <==> !WithinBound(w, agent, config.maxPoolSizePerAgent)
  {
    EndingsReturnAll(w, config, ids, agent);
  }

  // ---------------------------------------------------------------- single configurations

  /** Whenever an agent is one short of its maximum, two overlapping releases, each of which still
      sees room, leave it one above the maximum. */
  lemma OverlapExceedsMaximum(w: World, config: Config, x: string, y: string, now: int)
    requires Invariant(w, config) && x != y && Returnable(w, config, x, now) && Returnable(w, config, y, now)
    requires w.pool.byId[x].agent == w.pool.byId[y].agent
    requires |IdleSet(w.pool, w.pool.byId[x].agent)| + 1 == config.maxPoolSizePerAgent
    ensures var begun := Step(Step(w, config, Release(x, now)), config, Release(y, now));
            var ended := Step(Step(begun, config, Released(x)), config, Released(y));
            |IdleSet(ended.pool, w.pool.byId[x].agent)| == config.maxPoolSizePerAgent + 1
  {
    var a := w.pool.byId[x].agent;
    BeginsWithRoom(w, config, x, now);
    StartReleasingKeepsInvariant(w, config, x);
    BeginsWithRoom(StartReleasing(w, x), config, y, now);
    StartReleasingKeepsInvariant(StartReleasing(w, x), config, y);
    var begun := StartReleasing(StartReleasing(w, x), y);
    var half := Step(begun, config, Released(x));
    StepKeepsInvariant(begun, config, Released(x));
    EndReleaseInSets(begun, x, a);
    EndReleaseInSets(half, y, a);
    assert x in Agents(w.pool, a) && y in Agents(w.pool, a);
    assert x !in IdleSet(w.pool, a) && y !in IdleSet(w.pool, a) + {x};
  }

  /** With a maximum of 0 a released session stays in the pool all the same. */
  lemma ZeroMaximumIsExceeded(w: World, config: Config, id: string, now: int)
    requires Invariant(w, config) && Returnable(w, config, id, now) && config.maxPoolSizePerAgent == 0
    requires IdleSet(w.pool, w.pool.byId[id].agent) == {}
    ensures var ended := Step(Step(w, config, Release(id, now)), config, Released(id));
            IdleSet(ended.pool, w.pool.byId[id].agent) == {id}
  {
    BeginsWithRoom(w, config, id, now);
    EndReleaseInSets(w, id, w.pool.byId[id].agent);
  }

  // ---------------------------------------------------------------- runs that exceed any maximum

  lemma {:induction false} Extends(w: World, config: Config, events: seq<Event>, e: Event)
    requires Possible(w, config, events) && Enabled(After(w, config, events), e)
    ensures Possible(w, config, events + [e])
    ensures After(w, config, events + [e]) == Step(After(w, config, events), config, e)
    decreases |events|
  {
    if events == [] {
      assert events + [e] == [e] && [e][1..] == [];
    } else {
      assert (events + [e])[1..] == events[1..] + [e];
      Extends(Step(w, config, events[0]), config, events[1..], e);
    }
  }

  function Name(i: nat): (s: string)
    ensures |s| == i
  {
    seq(i, _ => 'x')
  }

  /** One of the first `n` names. */
  predicate IsName(id: string, n: nat) {
    |id| < n && id == Name(|id|)
  }

  lemma OneMoreName(n: nat)
    ensures forall id :: IsName(id, n + 1) <==> IsName(id, n) || id == Name(n)
    ensures !IsName(Name(n), n)
  {
  }

  ghost predicate Reaches(config: Config, events: seq<Event>, w: World) {
    Possible(EMPTY, config, events) && After(EMPTY, config, events) == w && Invariant(w, config)
  }

  lemma ReachesNext(config: Config, events: seq<Event>, w: World, e: Event)
    requires Reaches(config, events, w) && Enabled(w, e)
    ensures Reaches(config, events + [e], Step(w, config, e))
  {
    Extends(EMPTY, config, events, e);
    StepKeepsInvariant(w, config, e);
  }

  /** The first `n` names are sessions of the agent, and those from `f` on are in use. */
  ghost predicate Pooled(p: Pool, agent: string, n: nat, f: nat) {
    && (forall id :: id in p.byId <==> IsName(id, n))
    && (forall id :: id in p.byId ==> p.byId[id] == Session(agent, 0, 0, 0, |id| >= f))
  }

  /** The releases of the first `r` of `n` names have begun, and those of the first `f` are over. */
  ghost predicate Handled(w: World, n: nat, r: nat, f: nat) {
    && (forall id :: id in w.held <==> IsName(id, n) && r <= |id|)
    && (forall id :: id in w.releasing <==> IsName(id, n) && f <= |id| < r)
    && (forall id :: id in w.used <==> IsName(id, n))
  }

  function Creations(agent: string, n: nat): seq<Event> {
    if n == 0 then [] else Creations(agent, n - 1) + [Created(Name(n - 1), agent, 0)]
  }

  function Begun(agent: string, n: nat, r: nat): seq<Event> {
    if r == 0 then Creations(agent, n) else Begun(agent, n, r - 1) + [Release(Name(r - 1), 0)]
  }

  /** `n` sessions are created, all their releases begin, and the first `f` of them end. */
  function Overlapping(agent: string, n: nat, f: nat): seq<Event> {
    if f == 0 then Begun(agent, n, n) else Overlapping(agent, n, f - 1) + [Released(Name(f - 1))]
  }

  lemma CreatesOne(w: World, config: Config, agent: string, n: nat)
    requires Pooled(w.pool, agent, n, 0) && Handled(w, n, 0, 0)
    ensures Enabled(w, Created(Name(n), agent, 0))
    ensures var t := Step(w, config, Created(Name(n), agent, 0));
            Pooled(t.pool, agent, n + 1, 0) && Handled(t, n + 1, 0, 0)
  {
    OneMoreName(n);
  }

  lemma {:induction false} CreationsReach(config: Config, agent: string, n: nat) returns (w: World)
    ensures Reaches(config, Creations(agent, n), w) && Pooled(w.pool, agent, n, 0) && Handled(w, n, 0, 0)
  {
    if n == 0 {
      w := EMPTY;
    } else {
      w := CreationsReach(config, agent, n - 1);
      CreatesOne(w, config, agent, n - 1);
      ReachesNext(config, Creations(agent, n - 1), w, Created(Name(n - 1), agent, 0));
      w := Step(w, config, Created(Name(n - 1), agent, 0));
    }
  }

  lemma BeginsOne(w: World, config: Config, agent: string, n: nat, r: nat)
    requires Invariant(w, config) && r < n && 0 < config.maxReuseCount && 0 <= config.idleTimeoutMs
    requires Pooled(w.pool, agent, n, 0) && Handled(w, n, r, 0)
    ensures Enabled(w, Release(Name(r), 0))
    ensures var t := Step(w, config, Release(Name(r), 0));
            Pooled(t.pool, agent, n, 0) && Handled(t, n, r + 1, 0)
  {
    assert IsName(Name(r), n);
    assert IdleSet(w.pool, agent) == {};
    BeginsWithRoom(w, config, Name(r), 0);
    assert forall id :: IsName(id, n) && |id| == r <==> id == Name(r);
  }

  lemma {:induction false} BegunReaches(config: Config, agent: string, n: nat, r: nat) returns (w: World)
    requires r <= n && 0 < config.maxReuseCount && 0 <= config.idleTimeoutMs
    ensures Reaches(config, Begun(agent, n, r), w) && Pooled(w.pool, agent, n, 0) && Handled(w, n, r, 0)
  {
    if r == 0 {
      w := CreationsReach(config, agent, n);
    } else {
      w := BegunReaches(config, agent, n, r - 1);
      BeginsOne(w, config, agent, n, r - 1);
      ReachesNext(config, Begun(agent, n, r - 1), w, Release(Name(r - 1), 0));
      w := Step(w, config, Release(Name(r - 1), 0));
    }
  }

  lemma EndsOne(w: World, config: Config, agent: string, n: nat, f: nat)
    requires Pooled(w.pool, agent, n, f) && Handled(w, n, n, f) && f < n
    ensures Enabled(w, Released(Name(f)))
    ensures var t := Step(w, config, Released(Name(f)));
            Pooled(t.pool, agent, n, f + 1) && Handled(t, n, n, f + 1)
  {
    assert IsName(Name(f), n);
    assert forall id :: IsName(id, n) && |id| == f <==> id == Name(f);
  }

  lemma {:induction false} OverlappingReaches(config: Config, agent: string, n: nat, f: nat) returns (w: World)
    requires f <= n && 0 < config.maxReuseCount && 0 <= config.idleTimeoutMs
    ensures Reaches(config, Overlapping(agent, n, f), w) && Pooled(w.pool, agent, n, f) && Handled(w, n, n, f)
  {
    if f == 0 {
      w := BegunReaches(config, agent, n, n);
    } else {
      w := OverlappingReaches(config, agent, n, f - 1);
      EndsOne(w, config, agent, n, f - 1);
      ReachesNext(config, Overlapping(agent, n, f - 1), w, Released(Name(f - 1)));
      w := Step(w, config, Released(Name(f - 1)));
    }
  }

  lemma {:induction false} NamesCount(names: set<string>, n: nat)
    requires forall id :: id in names <==> IsName(id, n)
    ensures |names| == n
  {
    if n == 0 {
      assert names == {};
    } else {
      assert IsName(Name(n - 1), n);
      NamesCount(names - {Name(n - 1)}, n - 1);
    }
  }

  /** From an empty pool, whatever the maximum, `n` overlapping releases leave `n` idle sessions of one
      agent; so every maximum is exceeded by some run. */
  lemma OverlapExceedsAnyMaximum(config: Config, agent: string, n: nat)
    requires 0 < config.maxReuseCount && 0 <= config.idleTimeoutMs
    ensures Possible(EMPTY, config, Overlapping(agent, n, n))
    ensures |IdleSet(After(EMPTY, config, Overlapping(agent, n, n)).pool, agent)| == n
  {
    var w := OverlappingReaches(config, agent, n, n);
    forall id ensures id in IdleSet(w.pool, agent) <==> IsName(id, n) {
      if IsName(id, n) {
        assert id in Agents(w.pool, agent);
      }
    }
    NamesCount(IdleSet(w.pool, agent), n);
  }
}
