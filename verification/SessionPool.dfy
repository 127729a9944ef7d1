/** The session pool of src/core/agents/session-pool.ts: sessions indexed by identifier and by agent.

    Each method below is one stretch of the original between two `await`s. The server, which creates
    and deletes sessions, and the clock are inputs; session health and statistics are not modelled. */
module SessionPool {
  import opened Prelude

  datatype Config = Config(maxPoolSizePerAgent: nat, idleTimeoutMs: int, maxReuseCount: nat)

  /** The fields of one session at one moment. */
  datatype Session = Session(agent: string, createdAt: int, lastUsedAt: int, reuseCount: nat, inUse: bool)

  /** The two indexes at one moment, with sessions named by their identifiers. */
  datatype Pool = Pool(byId: map<string, Session>, byAgent: map<string, seq<string>>)

  /** How the first stretch of `release` ends. */
  datatype ReleaseStep = NotFound | Retired | Resetting

  // ---------------------------------------------------------------- the indexes

  /** Both indexes hold the same sessions, each once, in its own agent's non-empty list. */
  ghost predicate Consistent(p: Pool) {
    && (forall a :: a in p.byAgent ==> p.byAgent[a] != [] && NoDuplicates(p.byAgent[a]))
    && (forall a, id :: a in p.byAgent && id in p.byAgent[a] ==> id in p.byId && p.byId[id].agent == a)
    && (forall id :: id in p.byId ==> p.byId[id].agent in p.byAgent && id in p.byAgent[p.byId[id].agent])
  }

  function Agents(p: Pool, agent: string): seq<string> {
    if agent in p.byAgent then p.byAgent[agent] else []
  }

  predicate IsIdle(p: Pool, id: string) {
    id in p.byId && !p.byId[id].inUse
  }

  /** `find(s => !s.inUse && s.reuseCount < maxReuseCount)` */
  function FirstAvailable(p: Pool, ids: seq<string>, maxReuse: nat): Option<string> {
    if ids == [] then None
    else if IsIdle(p, ids[0]) && p.byId[ids[0]].reuseCount < maxReuse then Some(ids[0])
    else FirstAvailable(p, ids[1..], maxReuse)
  }

  /** `filter(s => !s.inUse)` */
  function IdleOnes(p: Pool, ids: seq<string>): seq<string> {
    if ids == [] then []
    else (if IsIdle(p, ids[0]) then [ids[0]] else []) + IdleOnes(p, ids[1..])
  }

  /** The first of a stable sort by last use: the earliest of the least recently used. */
  function Oldest(p: Pool, ids: seq<string>): (id: string)
    requires ids != [] && forall i :: i in ids ==> i in p.byId
    ensures id in ids && forall i :: i in ids ==> p.byId[id].lastUsedAt <= p.byId[i].lastUsedAt
  {
    if |ids| == 1 then ids[0]
    else
      var best := Oldest(p, ids[1..]);
      if p.byId[ids[0]].lastUsedAt <= p.byId[best].lastUsedAt then ids[0] else best
  }

  lemma {:induction false} FirstMinimumIsOldest(p: Pool, ids: seq<string>, k: nat)
    requires k < |ids| && forall j :: 0 <= j < |ids| ==> ids[j] in p.byId
    requires forall j :: 0 <= j < |ids| ==> p.byId[ids[k]].lastUsedAt <= p.byId[ids[j]].lastUsedAt
    requires forall j :: 0 <= j < k ==> p.byId[ids[k]].lastUsedAt < p.byId[ids[j]].lastUsedAt
    ensures (forall id :: id in ids ==> id in p.byId) && Oldest(p, ids) == ids[k]
  {
    if 0 < k {
      assert ids[1..][k - 1] == ids[k];
      FirstMinimumIsOldest(p, ids[1..], k - 1);
    } else if |ids| > 1 {
      assert Oldest(p, ids[1..]) in ids[1..];
    }
  }

  function Without(ids: seq<string>, id: string): seq<string> {
    if ids == [] then []
    else if ids[0] == id then ids[1..]
    else [ids[0]] + Without(ids[1..], id)
  }

  // ---------------------------------------------------------------- operations

  function Reuse(p: Pool, config: Config, agent: string, now: int): (Option<string>, Pool) {
    var id := FirstAvailable(p, Agents(p, agent), config.maxReuseCount);
    if id.None? || id.value !in p.byId then (None, p)
    else
      var s := p.byId[id.value];
      (id, p.(byId := p.byId[id.value := s.(inUse := true, lastUsedAt := now, reuseCount := s.reuseCount + 1)]))
  }

  function Add(p: Pool, id: string, agent: string, now: int): Pool {
    Pool(p.byId[id := Session(agent, now, now, 0, true)], p.byAgent[agent := Agents(p, agent) + [id]])
  }

  /** The lists without `id` in that of `agent`, and without that list once it is empty. */
  function Unlist(lists: map<string, seq<string>>, agent: string, id: string): map<string, seq<string>> {
    if agent !in lists then lists
    else
      var left := Without(lists[agent], id);
      if left == [] then lists - {agent} else lists[agent := left]
  }

  function Delete(p: Pool, id: string): Pool {
    if id !in p.byId then p else Pool(p.byId - {id}, Unlist(p.byAgent, p.byId[id].agent, id))
  }

  lemma IdleOnesAreKnown(p: Pool, ids: seq<string>)
    ensures forall id :: id in IdleOnes(p, ids) <==> id in ids && IsIdle(p, id)
    ensures |IdleOnes(p, ids)| <= |ids|
  {
    if ids != [] {
      IdleOnesAreKnown(p, ids[1..]);
      assert ids == [ids[0]] + ids[1..];
    }
  }

  /** Deletes the oldest idle session of an agent that has as many as it may. */
  function MakeRoom(p: Pool, config: Config, agent: string): Pool {
    var idle := IdleOnes(p, Agents(p, agent));
    IdleOnesAreKnown(p, Agents(p, agent));
    if |idle| >= config.maxPoolSizePerAgent && idle != [] then Delete(p, Oldest(p, idle)) else p
  }

  /** The first stretch of `release`: retire the session, or make room for it. */
  function BeginRelease(p: Pool, config: Config, id: string, now: int): (ReleaseStep, Pool) {
    if id !in p.byId then (NotFound, p)
    else
      var s := p.byId[id];
      if s.reuseCount >= config.maxReuseCount || now - s.createdAt > config.idleTimeoutMs * 2
      then (Retired, Delete(p, id))
      else
        (Resetting, MakeRoom(p, config, s.agent))
  }

  /** The last stretch of `release`; the session may have been deleted in between. */
  function EndRelease(p: Pool, id: string): Pool {
    if id in p.byId then p.(byId := p.byId[id := p.byId[id].(inUse := false)]) else p
  }

  /** One round of the loop of `cleanup`. */
  function CleanUp(p: Pool, config: Config, id: string, now: int): Pool {
    if IsIdle(p, id) && now - p.byId[id].lastUsedAt > config.idleTimeoutMs then Delete(p, id) else p
  }

  // ---------------------------------------------------------------- every operation keeps the indexes consistent

  lemma {:induction false} WithoutRemovesOne(ids: seq<string>, id: string)
    requires NoDuplicates(ids)
    ensures NoDuplicates(Without(ids, id))
    ensures forall x :: x in Without(ids, id) <==> x in ids && x != id
  {
    if ids != [] {
      WithoutRemovesOne(ids[1..], id);
      assert ids == [ids[0]] + ids[1..];
      assert forall k :: 0 <= k < |ids| - 1 ==> ids[1..][k] == ids[k + 1];
      assert ids[0] !in ids[1..];
    }
  }

  lemma DeleteKeepsConsistent(p: Pool, id: string)
    requires Consistent(p)
    ensures Consistent(Delete(p, id))
    ensures Delete(p, id).byId == p.byId - {id}
    ensures forall a, x :: x in Agents(Delete(p, id), a) <==> x in Agents(p, a) && x != id
  {
    if id in p.byId {
      WithoutRemovesOne(Agents(p, p.byId[id].agent), id);
    }
  }

  lemma DeletedIsUnlisted(p: Pool, id: string)
    requires Consistent(p)
    ensures forall a :: a in Delete(p, id).byAgent ==> id !in Delete(p, id).byAgent[a]
  {
    DeleteKeepsConsistent(p, id);
    assert forall a :: a in Delete(p, id).byAgent ==> Agents(Delete(p, id), a) == Delete(p, id).byAgent[a];
  }

  lemma AddKeepsConsistent(p: Pool, id: string, agent: string, now: int)
    requires Consistent(p) && id !in p.byId
    ensures Consistent(Add(p, id, agent, now))
    ensures forall a, x :: x in Agents(Add(p, id, agent, now), a) <==> x in Agents(p, a) || (a == agent && x == id)
  {
    assert id !in Agents(p, agent);
  }

  /** Updating a session in place, short of its agent, does not touch the indexes. */
  lemma UpdateKeepsConsistent(p: Pool, id: string, s: Session)
    requires Consistent(p) && id in p.byId && s.agent == p.byId[id].agent
    ensures Consistent(p.(byId := p.byId[id := s]))
  {
  }

  predicate Available(p: Pool, id: string, maxReuse: nat) {
    IsIdle(p, id) && p.byId[id].reuseCount < maxReuse
  }

  /** The session at position `k` is the first that is idle and may be reused; none is found only if
      there is none. */
  lemma {:induction false} FirstAvailableIsFirst(p: Pool, ids: seq<string>, maxReuse: nat) returns (k: nat)
    ensures k <= |ids| && forall j :: 0 <= j < k ==> !Available(p, ids[j], maxReuse)
    ensures FirstAvailable(p, ids, maxReuse) == if k == |ids| then None else Some(ids[k])
    ensures k < |ids| ==> Available(p, ids[k], maxReuse)
  {
    if ids == [] || Available(p, ids[0], maxReuse) {
      k := 0;
    } else {
      k := FirstAvailableIsFirst(p, ids[1..], maxReuse);
      k := k + 1;
    }
  }

  /** All rounds of one `cleanup`, without anything in between. */
  function CleanUpAll(p: Pool, config: Config, ids: seq<string>, now: int): Pool {
    if ids == [] then p else CleanUp(CleanUpAll(p, config, ids[..|ids| - 1], now), config, ids[|ids| - 1], now)
  }

  predicate IsStale(s: Session, config: Config, now: int) {
    !s.inUse && now - s.lastUsedAt > config.idleTimeoutMs
  }

  predicate Survives(s: Session, id: string, ids: seq<string>, config: Config, now: int) {
    !(id in ids && IsStale(s, config, now))
  }

  lemma CleanUpRemovesOne(p: Pool, config: Config, id: string, now: int)
    requires Consistent(p)
    ensures Consistent(CleanUp(p, config, id, now))
    ensures CleanUp(p, config, id, now).byId
         == if id in p.byId && IsStale(p.byId[id], config, now) then p.byId - {id} else p.byId
  {
    DeleteKeepsConsistent(p, id);
  }

  /** A cleanup over all sessions leaves exactly those that are in use or were used in time. */
  lemma {:induction false} CleanUpRemovesTheStale(p: Pool, config: Config, ids: seq<string>, now: int)
    requires Consistent(p)
    ensures Consistent(CleanUpAll(p, config, ids, now))
    ensures CleanUpAll(p, config, ids, now).byId
         == map id | id in p.byId && Survives(p.byId[id], id, ids, config, now) :: p.byId[id]
  {
    if ids != [] {
      var front, last := ids[..|ids| - 1], ids[|ids| - 1];
      CleanUpRemovesTheStale(p, config, front, now);
      CleanUpRemovesOne(CleanUpAll(p, config, front, now), config, last, now);
      assert ids == front + [last];
    }
  }

  // ---------------------------------------------------------------- the pool object

  class PooledSession {
    const id: string
    const agentName: string
    const createdAt: int
    var lastUsedAt: int
    var reuseCount: nat
    var inUse: bool

    constructor (id: string, agentName: string, now: int)
      ensures this.id == id && Fields() == Session(agentName, now, now, 0, true)
    {
      this.id, this.agentName, createdAt, lastUsedAt := id, agentName, now, now;
      reuseCount, inUse := 0, true;
    }

    function Fields(): Session
      reads this
    {
      Session(agentName, createdAt, lastUsedAt, reuseCount, inUse)
    }
  }

  function IdsOf(sessions: seq<PooledSession>): (ids: seq<string>)
    ensures |ids| == |sessions| && forall i :: 0 <= i < |ids| ==> ids[i] == sessions[i].id
  {
    seq(|sessions|, i requires 0 <= i < |sessions| => sessions[i].id)
  }

  /** The lists of `pool`, with sessions named by their identifiers. */
  ghost function ListedIds(pool: map<string, seq<PooledSession>>): map<string, seq<string>> {
    map a | a in pool :: IdsOf(pool[a])
  }

  lemma ListedIdsUpdate(pool: map<string, seq<PooledSession>>, agent: string, sessions: seq<PooledSession>)
    ensures ListedIds(pool[agent := sessions]) == ListedIds(pool)[agent := IdsOf(sessions)]
    ensures ListedIds(pool - {agent}) == ListedIds(pool) - {agent}
  {
  }

  lemma Unlisted(pool: map<string, seq<PooledSession>>, id: string)
    requires forall a :: a in ListedIds(pool) ==> id !in ListedIds(pool)[a]
    ensures forall a, s :: a in pool && s in pool[a] ==> s.id != id
  {
    forall a, s | a in pool && s in pool[a] ensures s.id != id {
      assert a in ListedIds(pool);
    }
  }

  /** `shown` is what the fields of the sessions hold. */
  ghost predicate AreShown(byId: map<string, PooledSession>, shown: map<string, Session>)
    reads byId.Values
  {
    && shown.Keys == byId.Keys
    && forall id :: id in byId ==> byId[id].id == id && byId[id].Fields() == shown[id]
  }

  /** Every listed session is the one that the other index has under its identifier. */
  ghost predicate AreLinked(pool: map<string, seq<PooledSession>>, byId: map<string, PooledSession>) {
    forall a, s :: a in pool && s in pool[a] ==> s.id in byId && byId[s.id] == s
  }

  lemma StillLinked(pool: map<string, seq<PooledSession>>, byId: map<string, PooledSession>,
                    left: map<string, seq<PooledSession>>, id: string)
    requires AreLinked(pool, byId)
    requires forall a, s :: a in left && s in left[a] ==> a in pool && s in pool[a]
    requires forall a :: a in ListedIds(left) ==> id !in ListedIds(left)[a]
    ensures AreLinked(left, byId - {id})
  {
    Unlisted(left, id);
  }

  class SessionPool {
    const config: Config
    var pool: map<string, seq<PooledSession>>
    var sessionsById: map<string, PooledSession>
    ghost var view: Pool

    /** `view` is what the two indexes hold, and both refer to the very same session objects.
        That `view` is also `Consistent` follows from what the methods below do to it. */
    ghost predicate Valid()
      reads this, sessionsById.Values
    {
      Shows() && Linked()
    }

    ghost predicate Shows()
      reads this, sessionsById.Values
    {
      && AreShown(sessionsById, view.byId)
      && view.byAgent == ListedIds(pool)
    }

    ghost predicate Linked()
      reads this
    {
      AreLinked(pool, sessionsById)
    }

    /** Sessions of this pool, as `view` shows them. */
    ghost predicate Known(sessions: seq<PooledSession>)
      reads this, sessions
    {
      forall s :: s in sessions ==>
        s.id in sessionsById && sessionsById[s.id] == s && s.id in view.byId && view.byId[s.id] == s.Fields()
    }

    constructor (config: Config)
      ensures Valid() && view == Pool(map[], map[]) && this.config == config
    {
      this.config := config;
      pool, sessionsById, view := map[], map[], Pool(map[], map[]);
    }

    method AcquireIdle(agentName: string, now: int) returns (session: PooledSession?)
      requires Valid()
      modifies this`view, sessionsById.Values
      ensures Valid() && pool == old(pool) && sessionsById == old(sessionsById)
      ensures var (id, p) := Reuse(old(view), config, agentName, now);
              && view == p
              && (if session == null then id == None else session in sessionsById.Values && id == Some(session.id))
    {
      var agentPool := if agentName in pool then pool[agentName] else [];
      session := FindAvailable(agentPool);
      if session != null {
        MarkReused(session, now);
      }
    }

    method MarkReused(session: PooledSession, now: int)
      requires Valid() && session.id in sessionsById && sessionsById[session.id] == session
      modifies this`view, session
      ensures Valid() && pool == old(pool) && sessionsById == old(sessionsById)
      ensures var s := old(session.Fields());
              view == old(view).(byId := old(view).byId[session.id := s.(inUse := true, lastUsedAt := now, reuseCount := s.reuseCount + 1)])
    {
      session.inUse := true;
      session.lastUsedAt := now;
      session.reuseCount := session.reuseCount + 1;
      view := view.(byId := view.byId[session.id := session.Fields()]);
    }

    /** `find(s => !s.inUse && s.reuseCount < maxReuseCount)` */
    method FindAvailable(sessions: seq<PooledSession>) returns (session: PooledSession?)
      requires Known(sessions)
      ensures var id := FirstAvailable(view, IdsOf(sessions), config.maxReuseCount);
              if session == null then id == None else session in sessions && id == Some(session.id)
    {
      ghost var ids := IdsOf(sessions);
      for i := 0 to |sessions|
        invariant FirstAvailable(view, ids, config.maxReuseCount) == FirstAvailable(view, ids[i..], config.maxReuseCount)
      {
        session := sessions[i];
        assert view.byId[ids[i]] == session.Fields();
        assert ids[i..][0] == ids[i] && ids[i..][1..] == ids[i + 1..];
        if !session.inUse && session.reuseCount < config.maxReuseCount {
          return;
        }
      }
      session := null;
    }

    /** The end of `createSession`: the server has answered with a fresh identifier. */
    method AddSession(id: string, agentName: string, now: int) returns (session: PooledSession)
      requires Valid() && id !in sessionsById
      modifies this
      ensures Valid() && fresh(session) && session.id == id && view == Add(old(view), id, agentName, now)
      ensures sessionsById == old(sessionsById)[id := session]
    {
      session := new PooledSession(id, agentName, now);
      List(session);
      sessionsById := sessionsById[id := session];
      view := Add(view, id, agentName, now);
    }

    /** Appends a session to the list of its agent. */
    method List(session: PooledSession)
      modifies this`pool
      ensures var ids := if session.agentName in old(pool) then IdsOf(old(pool)[session.agentName]) else [];
              ListedIds(pool) == ListedIds(old(pool))[session.agentName := ids + [session.id]]
      ensures forall a, s :: a in pool && s in pool[a] ==> s == session || (a in old(pool) && s in old(pool)[a])
    {
      var agentPool := if session.agentName in pool then pool[session.agentName] else [];
      IdsOfAppend(agentPool, session);
      ListedIdsUpdate(pool, session.agentName, agentPool + [session]);
      pool := pool[session.agentName := agentPool + [session]];
    }

    /** Takes a session off the list of its agent, and the list away once it is empty. */
    method UnlistSession(session: PooledSession)
      modifies this`pool
      ensures ListedIds(pool) == Unlist(ListedIds(old(pool)), session.agentName, session.id)
      ensures forall a, s :: a in pool && s in pool[a] ==> a in old(pool) && s in old(pool)[a]
    {
      if session.agentName in pool {
        var left := RemoveFirst(pool[session.agentName], session.id);
        ListedIdsUpdate(pool, session.agentName, left);
        if left == [] {
          pool := pool - {session.agentName};
        } else {
          pool := pool[session.agentName := left];
        }
      }
    }

    /** `deleteSession` up to its call of the server. */
    method DeleteSession(id: string)
      requires Valid() && Consistent(view)
      modifies this`pool, this`sessionsById, this`view
      ensures Valid() && view == Delete(old(view), id)
      ensures sessionsById == old(sessionsById) - {id}
    {
      if id in sessionsById {
        DeleteKnown(sessionsById[id]);
      }
    }

    method DeleteKnown(session: PooledSession)
      requires Valid() && Consistent(view) && session.id in sessionsById && sessionsById[session.id] == session
      modifies this`pool, this`sessionsById, this`view
      ensures Valid() && view == Delete(old(view), session.id)
      ensures sessionsById == old(sessionsById) - {session.id}
    {
      var id := session.id;
      assert session.Fields() == view.byId[id];
      ghost var left := Delete(view, id);
      assert left == Pool(view.byId - {id}, Unlist(view.byAgent, session.agentName, id));
      DeletedIsUnlisted(view, id);
      sessionsById := sessionsById - {id};
      UnlistSession(session);
      assert ListedIds(pool) == left.byAgent;
      StillLinked(old(pool), old(sessionsById), pool, id);
      view := left;
    }

    /** `release` up to its first `await`. */
    method BeginReleaseOf(id: string, now: int) returns (step: ReleaseStep)
      requires Valid() && Consistent(view)
      modifies this`pool, this`sessionsById, this`view
      ensures Valid() && (step, view) == BeginRelease(old(view), config, id, now)
    {
      if id !in sessionsById {
        return NotFound;
      }
      var session := sessionsById[id];
      assert session.Fields() == view.byId[id];
      if session.reuseCount >= config.maxReuseCount || now - session.createdAt > config.idleTimeoutMs * 2 {
        DeleteSession(id);
        return Retired;
      }
      MakeRoomFor(session.agentName);
      step := Resetting;
    }

    /** Deletes the agent's oldest idle session if it has as many as it may. */
    method MakeRoomFor(agentName: string)
      requires Valid() && Consistent(view)
      modifies this`pool, this`sessionsById, this`view
      ensures Valid() && view == MakeRoom(old(view), config, agentName)
    {
      var agentPool := if agentName in pool then pool[agentName] else [];
      assert IdsOf(agentPool) == Agents(view, agentName);
      var available := FilterIdle(agentPool);
      if |available| >= config.maxPoolSizePerAgent && available != [] {
        var oldest := OldestOf(available);
        DeleteSession(oldest.id);
      }
    }

    /** `filter(s => !s.inUse)` */
    method FilterIdle(sessions: seq<PooledSession>) returns (available: seq<PooledSession>)
      requires Known(sessions)
      ensures IdsOf(available) == IdleOnes(view, IdsOf(sessions))
      ensures forall s :: s in available ==> s in sessions
    {
      ghost var ids := IdsOf(sessions);
      available := [];
      for i := |sessions| downto 0
        invariant IdsOf(available) == IdleOnes(view, ids[i..])
        invariant forall s :: s in available ==> s in sessions
      {
        var session := sessions[i];
        assert view.byId[ids[i]] == session.Fields();
        assert ids[i..][0] == ids[i] && ids[i..][1..] == ids[i + 1..];
        if !session.inUse {
          assert IdsOf([session] + available) == [session.id] + IdsOf(available);
          available := [session] + available;
        }
      }
      assert ids[0..] == ids;
    }

    /** The first element of the stable sort by last use. */
    method OldestOf(sessions: seq<PooledSession>) returns (oldest: PooledSession)
      requires Known(sessions) && sessions != []
      ensures (forall id :: id in IdsOf(sessions) ==> id in view.byId) && oldest.id == Oldest(view, IdsOf(sessions))
    {
      var best := 0;
      for i := 1 to |sessions|
        invariant 0 <= best < i
        invariant forall j :: 0 <= j < i ==> sessions[best].lastUsedAt <= sessions[j].lastUsedAt
        invariant forall j :: 0 <= j < best ==> sessions[best].lastUsedAt < sessions[j].lastUsedAt
      {
        if sessions[i].lastUsedAt < sessions[best].lastUsedAt {
          best := i;
        }
      }
      oldest := sessions[best];
      assert forall j :: 0 <= j < |sessions| ==> sessions[j] in sessions;
      assert forall j :: 0 <= j < |sessions| ==> view.byId[IdsOf(sessions)[j]].lastUsedAt == sessions[j].lastUsedAt;
      FirstMinimumIsOldest(view, IdsOf(sessions), best);
    }

    /** The end of `release`; the session may have been deleted meanwhile. */
    method EndReleaseOf(session: PooledSession)
      requires Valid() && (session.id in sessionsById ==> sessionsById[session.id] == session)
      modifies this`view, session
      ensures Valid() && !session.inUse && view == EndRelease(old(view), session.id)
    {
      session.inUse := false;
      view := EndRelease(view, session.id);
    }

    /** One round of the loop of `cleanup`. */
    method CleanUpOne(id: string, now: int)
      requires Valid() && Consistent(view)
      modifies this`pool, this`sessionsById, this`view
      ensures Valid() && view == CleanUp(old(view), config, id, now)
    {
      if id in sessionsById {
        assert sessionsById[id].Fields() == view.byId[id];
        if !sessionsById[id].inUse && now - sessionsById[id].lastUsedAt > config.idleTimeoutMs {
          DeleteSession(id);
        }
      }
    }

    /** The end of `shutdown`. */
    method Clear()
      modifies this
      ensures Valid() && view == Pool(map[], map[])
    {
      pool, sessionsById, view := map[], map[], Pool(map[], map[]);
    }
  }

  lemma IdsOfAppend(sessions: seq<PooledSession>, s: PooledSession)
    ensures IdsOf(sessions + [s]) == IdsOf(sessions) + [s.id]
  {
    var a, b := IdsOf(sessions + [s]), IdsOf(sessions) + [s.id];
    assert |a| == |b| && forall i :: 0 <= i < |a| ==> a[i] == b[i];
  }

  lemma {:induction false} WithoutAt(ids: seq<string>, id: string, i: nat)
    requires i <= |ids| && id !in ids[..i] && (i < |ids| ==> ids[i] == id)
    ensures Without(ids, id) == if i < |ids| then ids[..i] + ids[i + 1..] else ids
  {
    if 0 < i {
      assert ids[0] in ids[..i];
      assert ids[1..][..i - 1] == ids[1..i];
      WithoutAt(ids[1..], id, i - 1);
      assert ids == [ids[0]] + ids[1..];
    }
  }

  /** `findIndex` followed by `splice`. */
  method RemoveFirst(sessions: seq<PooledSession>, id: string) returns (left: seq<PooledSession>)
    ensures IdsOf(left) == Without(IdsOf(sessions), id)
    ensures forall s :: s in left ==> s in sessions
  {
    var idx := 0;
    while idx < |sessions| && sessions[idx].id != id
      invariant 0 <= idx <= |sessions| && forall j :: 0 <= j < idx ==> sessions[j].id != id
    {
      idx := idx + 1;
    }
    WithoutAt(IdsOf(sessions), id, idx);
    if idx < |sessions| {
      left := sessions[..idx] + sessions[idx + 1..];
    } else {
      left := sessions;
    }
  }
}
