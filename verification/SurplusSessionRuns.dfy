/** What a release of a session does that nobody owes, as when the pruning of an expired task and its
    scheduled cleanup both release its session: exactly when it is harmless, on a single step and over whole
    runs, and a run in which one session gets two holders. */
module SurplusSessionRuns {
  import opened Prelude
  import opened SessionPool
  import opened SessionPoolRuns

  /** `surplus` holds the surplus releases that are between their first and last stretch. */
  datatype LooseWorld = LooseWorld(world: World, surplus: multiset<string>)

  datatype LooseEvent =
    | Owed(e: Event)                        // what `SessionPoolRuns` allows
    | SurplusRelease(id: string, now: int)  // by anybody, at any time
    | SurplusReleased(id: string)           // the last stretch of that release

  const NOTHING := LooseWorld(EMPTY, multiset{})

  predicate LooselyEnabled(v: LooseWorld, e: LooseEvent) {
    match e
    case Owed(owed) => Enabled(v.world, owed)
    case SurplusRelease(_, _) => true
    case SurplusReleased(id) => id in v.surplus
  }

  function LooseStep(v: LooseWorld, config: Config, e: LooseEvent): LooseWorld {
    match e
    case Owed(owed) => v.(world := Step(v.world, config, owed))
    case SurplusRelease(id, now) =>
      var (step, p) := BeginRelease(v.world.pool, config, id, now);
      LooseWorld(v.world.(pool := p), if step.Resetting? then v.surplus + multiset{id} else v.surplus)
    case SurplusReleased(id) =>
      LooseWorld(v.world.(pool := EndRelease(v.world.pool, id)), v.surplus - multiset{id})
  }

  ghost predicate LooselyPossible(v: LooseWorld, config: Config, events: seq<LooseEvent>)
    decreases |events|
  {
    events == [] ||
    (LooselyEnabled(v, events[0]) && LooselyPossible(LooseStep(v, config, events[0]), config, events[1..]))
  }

  function LooselyAfter(v: LooseWorld, config: Config, events: seq<LooseEvent>): LooseWorld
    decreases |events|
  {
    if events == [] then v else LooselyAfter(LooseStep(v, config, events[0]), config, events[1..])
  }

  // ---------------------------------------------------------------- the two stretches

  /** The session is past its reuse maximum or its age, so that a release takes it out of the pool. */
  predicate Due(p: Pool, config: Config, id: string, now: int) {
    id in p.byId && (p.byId[id].reuseCount >= config.maxReuseCount || now - p.byId[id].createdAt > config.idleTimeoutMs * 2)
  }

  lemma MakingRoomTakesNothing(w: World, config: Config, agent: string)
    requires Invariant(w, config)
    ensures Invariant(w.(pool := MakeRoom(w.pool, config, agent)), config)
    ensures w.held * MakeRoom(w.pool, config, agent).byId.Keys == w.held * w.pool.byId.Keys
  {
    var idle := IdleOnes(w.pool, Agents(w.pool, agent));
    IdleOnesAreKnown(w.pool, Agents(w.pool, agent));
    if idle != [] {
      var victim := Oldest(w.pool, idle);
      DeleteKeepsInvariant(w, config, victim);
      DeleteKeepsConsistent(w.pool, victim);
      assert victim !in w.held;
    }
  }

  /** The first stretch keeps the flags right, whoever holds what. It takes a pooled session from its holder
      exactly when that session is the released one and is due for retirement. */
  lemma BeginTakesExactly(w: World, config: Config, id: string, now: int)
    requires Invariant(w, config)
    ensures var p := BeginRelease(w.pool, config, id, now).1;
      && Invariant(w.(pool := p), config)
      && w.held * p.byId.Keys == w.held * w.pool.byId.Keys - (if Due(w.pool, config, id, now) then {id} else {})
  {
    if Due(w.pool, config, id, now) {
      DeleteKeepsInvariant(w, config, id);
      DeleteKeepsConsistent(w.pool, id);
    } else if id in w.pool.byId {
      MakingRoomTakesNothing(w, config, w.pool.byId[id].agent);
    }
  }

  predicate InUse(p: Pool, id: string) {
    id in p.byId && p.byId[id].inUse
  }

  /** The last stretch keeps the flags right exactly when it does not find the session in use; it then does
      nothing at all. */
  lemma EndIsHarmlessExactly(w: World, config: Config, id: string)
    requires Invariant(w, config)
    ensures Invariant(w.(pool := EndRelease(w.pool, id)), config) <==> !InUse(w.pool, id)
    ensures InUse(w.pool, id) <==> id in w.pool.byId && (id in w.held || id in w.releasing)
    ensures !InUse(w.pool, id) ==> EndRelease(w.pool, id) == w.pool
  {
    if id in w.pool.byId && !w.pool.byId[id].inUse {
      assert w.pool.byId[id].(inUse := false) == w.pool.byId[id];
      assert w.pool.byId[id := w.pool.byId[id]] == w.pool.byId;
    }
    if InUse(w.pool, id) {
      assert !EndRelease(w.pool, id).byId[id].inUse;
    }
  }

  // ---------------------------------------------------------------- over whole runs

  /** A surplus release ends while somebody holds the session or is still releasing it. */
  predicate Disturbs(v: LooseWorld, e: LooseEvent) {
    e.SurplusReleased? && InUse(v.world.pool, e.id)
  }

  lemma StepIsExclusiveExactly(v: LooseWorld, config: Config, e: LooseEvent)
    requires Invariant(v.world, config) && LooselyEnabled(v, e)
    ensures Invariant(LooseStep(v, config, e).world, config) <==> !Disturbs(v, e)
  {
    match e
    case Owed(owed) => StepKeepsInvariant(v.world, config, owed);
    case SurplusRelease(id, now) => BeginTakesExactly(v.world, config, id, now);
    case SurplusReleased(id) => EndIsHarmlessExactly(v.world, config, id);
  }

  /** At every moment of the run the indexes agree and a pooled session is in use exactly while somebody
      holds it or is still releasing it. */
  ghost predicate AlwaysExclusive(v: LooseWorld, config: Config, events: seq<LooseEvent>)
    decreases |events|
  {
    Invariant(v.world, config) &&
    (events == [] || AlwaysExclusive(LooseStep(v, config, events[0]), config, events[1..]))
  }

  ghost predicate NothingDisturbs(v: LooseWorld, config: Config, events: seq<LooseEvent>)
    decreases |events|
  {
    events == [] ||
    (!Disturbs(v, events[0]) && NothingDisturbs(LooseStep(v, config, events[0]), config, events[1..]))
  }

  lemma {:induction false} ExclusiveExactly(v: LooseWorld, config: Config, events: seq<LooseEvent>)
    requires Invariant(v.world, config) && LooselyPossible(v, config, events)
    ensures AlwaysExclusive(v, config, events) <==> NothingDisturbs(v, config, events)
    ensures AlwaysExclusive(v, config, events) ==> Invariant(LooselyAfter(v, config, events).world, config)
    decreases |events|
  {
    if events != [] {
      StepIsExclusiveExactly(v, config, events[0]);
      if !Disturbs(v, events[0]) {
        ExclusiveExactly(LooseStep(v, config, events[0]), config, events[1..]);
      }
    }
  }

  /** Whoever releases what, sessions are used exclusively throughout a run if and only if no surplus release
      ends while its session is in use. */
  lemma SessionsAreExclusiveExactly(config: Config, events: seq<LooseEvent>)
    requires LooselyPossible(NOTHING, config, events)
    ensures AlwaysExclusive(NOTHING, config, events) <==> NothingDisturbs(NOTHING, config, events)
  {
    ExclusiveExactly(NOTHING, config, events);
  }

  /** After a run without such an end a session is handed out only when nobody holds it and nobody is still
      releasing it. */
  lemma UndisturbedMeansExclusive(config: Config, events: seq<LooseEvent>, agent: string)
    requires LooselyPossible(NOTHING, config, events) && NothingDisturbs(NOTHING, config, events)
    ensures var w := LooselyAfter(NOTHING, config, events).world;
            var id := FirstAvailable(w.pool, Agents(w.pool, agent), config.maxReuseCount);
            id.Some? ==> id.value !in w.held && id.value !in w.releasing
  {
    ExclusiveExactly(NOTHING, config, events);
    var w := LooselyAfter(NOTHING, config, events).world;
    var _ := FirstAvailableIsFirst(w.pool, Agents(w.pool, agent), config.maxReuseCount);
  }

  // ---------------------------------------------------------------- a session with two holders

  /** A session is created, released and handed out again; then its first holder's second release comes. */
  function ReleasedTwice(id: string, agent: string): seq<LooseEvent> {
    [Owed(Created(id, agent, 0)), Owed(Release(id, 0)), Owed(Released(id)), Owed(Acquire(agent, 0)),
     SurplusRelease(id, 0), SurplusReleased(id)]
  }

  /** The pool with one session. */
  function Single(id: string, agent: string, reuseCount: nat, inUse: bool): Pool {
    Pool(map[id := Session(agent, 0, 0, reuseCount, inUse)], map[agent := [id]])
  }

  lemma Unfolds(v: LooseWorld, config: Config, events: seq<LooseEvent>)
    requires events != [] && LooselyEnabled(v, events[0])
    ensures LooselyPossible(v, config, events) <==> LooselyPossible(LooseStep(v, config, events[0]), config, events[1..])
    ensures LooselyAfter(v, config, events) == LooselyAfter(LooseStep(v, config, events[0]), config, events[1..])
  {
  }

  lemma BeginsAlone(config: Config, id: string, agent: string, reuseCount: nat)
    requires reuseCount < config.maxReuseCount && 0 <= config.idleTimeoutMs
    ensures BeginRelease(Single(id, agent, reuseCount, true), config, id, 0) == (Resetting, Single(id, agent, reuseCount, true))
  {
    var p := Single(id, agent, reuseCount, true);
    assert Agents(p, agent) == [id] && [id][1..] == [];
    assert IdleOnes(p, [id]) == [];
  }

  lemma ReusesAlone(config: Config, id: string, agent: string, reuseCount: nat)
    requires reuseCount < config.maxReuseCount
    ensures Reuse(Single(id, agent, reuseCount, false), config, agent, 0) == (Some(id), Single(id, agent, reuseCount + 1, true))
  {
    var p := Single(id, agent, reuseCount, false);
    assert Agents(p, agent) == [id];
    assert FirstAvailable(p, [id], config.maxReuseCount) == Some(id);
    assert p.byId[id := Session(agent, 0, 0, reuseCount + 1, true)] == Single(id, agent, reuseCount + 1, true).byId;
  }

  lemma FirstHolder(config: Config, id: string, agent: string)
    requires 1 <= config.maxReuseCount && 0 <= config.idleTimeoutMs
    ensures LooselyEnabled(NOTHING, Owed(Created(id, agent, 0)))
    ensures var a := LooseStep(NOTHING, config, Owed(Created(id, agent, 0)));
            var b := LooseStep(a, config, Owed(Release(id, 0)));
            && LooselyEnabled(a, Owed(Release(id, 0))) && LooselyEnabled(b, Owed(Released(id)))
            && LooseStep(b, config, Owed(Released(id)))
            == LooseWorld(World(Single(id, agent, 0, false), {}, {}, {id}), multiset{})
  {
    BeginsAlone(config, id, agent, 0);
    var a := LooseStep(NOTHING, config, Owed(Created(id, agent, 0)));
    assert [] + [id] == [id];
    assert a == LooseWorld(World(Single(id, agent, 0, true), {id}, {}, {id}), multiset{});
    var b := LooseStep(a, config, Owed(Release(id, 0)));
    assert b == LooseWorld(World(Single(id, agent, 0, true), {}, {id}, {id}), multiset{});
  }

  lemma SecondHolder(config: Config, id: string, agent: string)
    requires 2 <= config.maxReuseCount && 0 <= config.idleTimeoutMs
    ensures var c := LooseWorld(World(Single(id, agent, 0, false), {}, {}, {id}), multiset{});
            var d := LooseStep(c, config, Owed(Acquire(agent, 0)));
            var e := LooseStep(d, config, SurplusRelease(id, 0));
            && LooselyEnabled(e, SurplusReleased(id)) && Disturbs(e, SurplusReleased(id))
            && LooseStep(e, config, SurplusReleased(id))
            == LooseWorld(World(Single(id, agent, 1, false), {id}, {}, {id}), multiset{})
  {
    ReusesAlone(config, id, agent, 0);
    BeginsAlone(config, id, agent, 1);
    var d := LooseStep(LooseWorld(World(Single(id, agent, 0, false), {}, {}, {id}), multiset{}), config, Owed(Acquire(agent, 0)));
    assert d == LooseWorld(World(Single(id, agent, 1, true), {id}, {}, {id}), multiset{});
    var e := LooseStep(d, config, SurplusRelease(id, 0));
    assert e == LooseWorld(World(Single(id, agent, 1, true), {id}, {}, {id}), multiset{id});
  }

  /** Released twice by its first holder, a session is handed out to a second holder and then to a third,
      while the second still holds it. */
  lemma SessionIsSharedByTwo(config: Config, id: string, agent: string)
    requires 2 <= config.maxReuseCount && 0 <= config.idleTimeoutMs
    ensures LooselyPossible(NOTHING, config, ReleasedTwice(id, agent))
    ensures var w := LooselyAfter(NOTHING, config, ReleasedTwice(id, agent)).world;
            id in w.held && Reuse(w.pool, config, agent, 0).0 == Some(id)
  {
    var events := ReleasedTwice(id, agent);
    FirstHolder(config, id, agent);
    SecondHolder(config, id, agent);
    ReusesAlone(config, id, agent, 1);
    var a := LooseStep(NOTHING, config, events[0]);
    var b := LooseStep(a, config, events[1]);
    var c := LooseStep(b, config, events[2]);
    var d := LooseStep(c, config, events[3]);
    var e := LooseStep(d, config, events[4]);
    Unfolds(NOTHING, config, events);
    Unfolds(a, config, events[1..]);
    Unfolds(b, config, events[2..]);
    Unfolds(c, config, events[3..]);
    Unfolds(d, config, events[4..]);
    Unfolds(e, config, events[5..]);
  }
}
