/** Which acquisitions the concurrency controller admits, when and in which order, and how reports move the
    limit: on one key in any state, and over whole histories of a key. */
module AdmissionRuns {
  import opened Prelude
  import opened Concurrency
  import opened ConcurrencyRuns
  import C = CircuitRuns

  // ---------------------------------------------------------------- one acquisition

  /** The circuit is open and its last failure at most 30 seconds ago. */
  predicate ShutOut(k: KeyState, now: int) {
    k.circuit.state.Open? && now - k.circuit.lastFailureTime <= 30_000
  }

  predicate UnderPressure(w: Waiter, pressure: bool) {
    pressure && w.priority == TaskPriority.Low
  }

  predicate HasRoom(k: KeyState) {
    k.limit.Infinity? || k.count < k.limit.n
  }

  /** Which admission an acquisition gets, for every key, unlimited ones included. */
  lemma AdmittedExactly(k: KeyState, w: Waiter, now: int, pressure: bool)
    ensures var a := AcquireOn(k, w, now, pressure).0;
      && (a.RejectedByCircuit? <==> ShutOut(k, now))
      && (a.RejectedByPressure? <==> !ShutOut(k, now) && UnderPressure(w, pressure))
      && (a.Granted? <==> !ShutOut(k, now) && !UnderPressure(w, pressure) && HasRoom(k))
      && (a.Queued? <==> !ShutOut(k, now) && !UnderPressure(w, pressure) && !HasRoom(k))
  {
  }

  /** What an acquisition changes: a grant takes a slot of a limited key, a waiter joins the queue, and an attempt
      after the 30 seconds starts a trial of the circuit. */
  lemma AcquiringChanges(k: KeyState, w: Waiter, now: int, pressure: bool)
    ensures var (a, t) := AcquireOn(k, w, now, pressure);
      && t.limit == k.limit && t.streak == k.streak && t.failures == k.failures
      && t.count == k.count + (if a.Granted? && k.limit.Finite? then 1 else 0)
      && multiset(t.queue) == multiset(k.queue) + (if a.Queued? then multiset{w} else multiset{})
      && t.circuit == (if k.circuit.state.Open? && !ShutOut(k, now)
                       then k.circuit.(state := HalfOpen, successCount := 0) else k.circuit)
  {
    var i := InsertIndex(k.queue, w.priority);
    assert k.queue == k.queue[..i] + k.queue[i..];
  }

  // ---------------------------------------------------------------- admissions over a history

  function OfCircuit(e: Event): seq<C.Event> {
    match e
    case Acquire(_, now, _) => [C.Attempt(now)]
    case Report(success, now) => [if success then C.Success else C.Failure(now)]
    case Reset => [C.Event.Reset]
    case _ => []
  }

  /** What a run means for the circuit of its key. */
  function CircuitHistory(events: seq<Event>): seq<C.Event> {
    if events == [] then [] else OfCircuit(events[0]) + CircuitHistory(events[1..])
  }

  lemma StepFollowsHistory(w: World, h: seq<C.Event>, e: Event)
    requires w.key.circuit == C.After(h)
    ensures Step(w, e).key.circuit == C.After(h + OfCircuit(e))
  {
    if OfCircuit(e) == [] {
      assert h + [] == h;
    } else {
      assert (h + OfCircuit(e))[..|h|] == h;
    }
  }

  /** The circuit of a key is the one that its history leads to. */
  lemma {:induction false} CircuitFollowsHistory(w: World, h: seq<C.Event>, events: seq<Event>)
    requires w.key.circuit == C.After(h)
    ensures After(w, events).key.circuit == C.After(h + CircuitHistory(events))
    decreases |events|
  {
    if events == [] {
      assert h + [] == h;
    } else {
      StepFollowsHistory(w, h, events[0]);
      HistoryUnfolds(h, events);
      CircuitFollowsHistory(Step(w, events[0]), h + OfCircuit(events[0]), events[1..]);
    }
  }

  lemma HistoryUnfolds(h: seq<C.Event>, events: seq<Event>)
    requires events != []
    ensures h + CircuitHistory(events) == (h + OfCircuit(events[0])) + CircuitHistory(events[1..])
  {
  }

  /** A key that has not been used. */
  ghost function NewKey(limit: Limit): World {
    World(KeyState(0, [], limit, 0, 0, NEW_CIRCUIT), 0, {}, {}, [], 0)
  }

  ghost predicate EndsInFifthFailure(events: seq<Event>) {
    var h := CircuitHistory(events);
    h != [] && h[|h| - 1].Failure? && C.TrailingFailures(h) >= 5
  }

  ghost function LastTime(events: seq<Event>): int {
    C.LastFailure(CircuitHistory(events))
  }

  lemma FifthFailureOpens(h: seq<C.Event>)
    requires h != [] && h[|h| - 1].Failure? && C.TrailingFailures(h) >= 5
    ensures C.After(h).state.Open? && C.After(h).lastFailureTime == C.LastFailure(h)
  {
    C.CountsTrailingFailures(h);
  }

  /** Nothing resets the circuit, no acquisition comes later than `until`, and no failure before `from`. */
  ghost predicate Within(events: seq<Event>, from: int, until: int) {
    forall i :: 0 <= i < |events| ==>
      && !events[i].Reset?
      && (events[i].Acquire? ==> events[i].now <= until)
      && (events[i].Report? && !events[i].success ==> from <= events[i].now)
  }

  /** What the acquisition at place `i` of the run gets. */
  ghost function AdmissionAt(w: World, events: seq<Event>, i: nat): Admission
    requires i < |events| && events[i].Acquire?
  {
    var v := After(w, events[..i]);
    AcquireOn(v.key, Waiter(v.arrivals, events[i].priority), events[i].now, events[i].pressure).0
  }

  lemma {:induction false} StaysShut(w: World, events: seq<Event>, from: int, i: nat)
    requires w.key.circuit.state.Open? && from <= w.key.circuit.lastFailureTime
    requires Within(events, from, from + 30_000) && i < |events| && events[i].Acquire?
    ensures AdmissionAt(w, events, i).RejectedByCircuit?
    decreases i
  {
    if i == 0 {
      assert events[..0] == [];
    } else {
      var v := Step(w, events[0]);
      assert v.key.circuit.state.Open? && from <= v.key.circuit.lastFailureTime;
      assert forall j :: 0 <= j < |events| - 1 ==> events[1..][j] == events[j + 1];
      StaysShut(v, events[1..], from, i - 1);
      assert events[..i][1..] == events[1..][..i - 1];
    }
  }

  /** After the fifth failure in a row every acquisition of the next 30 seconds is refused, for every limit,
      whatever else is reported meanwhile, unless the circuit is reset. */
  lemma FifthFailureShutsOut(limit: Limit, events: seq<Event>, rest: seq<Event>, i: nat)
    requires EndsInFifthFailure(events) && Within(rest, LastTime(events), LastTime(events) + 30_000)
    requires i < |rest| && rest[i].Acquire?
    ensures AdmissionAt(After(NewKey(limit), events), rest, i).RejectedByCircuit?
  {
    CircuitFollowsHistory(NewKey(limit), [], events);
    assert [] + CircuitHistory(events) == CircuitHistory(events);
    FifthFailureOpens(CircuitHistory(events));
    StaysShut(After(NewKey(limit), events), rest, LastTime(events), i);
  }

  /** With fewer than five failures since the last success or reset, and no earlier run of five, nothing is
      refused by the circuit: it is closed. */
  lemma {:induction false} ClosedWithoutFifthFailure(h: seq<C.Event>)
    requires forall n :: 0 <= n <= |h| ==> C.TrailingFailures(h[..n]) < 5
    ensures C.After(h).state.Closed?
  {
    if h != [] {
      var front := h[..|h| - 1];
      forall n | 0 <= n <= |front| ensures C.TrailingFailures(front[..n]) < 5 {
        assert front[..n] == h[..n];
      }
      ClosedWithoutFifthFailure(front);
      assert h[..|h|] == h;
      assert h == front + [h[|h| - 1]];
      C.OpensOnFifthFailure(front, h[|h| - 1]);
    }
  }

  lemma NothingRefusedBefore(limit: Limit, events: seq<Event>, w: Waiter, now: int, pressure: bool)
    requires forall n :: 0 <= n <= |CircuitHistory(events)| ==> C.TrailingFailures(CircuitHistory(events)[..n]) < 5
    ensures !AcquireOn(After(NewKey(limit), events).key, w, now, pressure).0.RejectedByCircuit?
  {
    CircuitFollowsHistory(NewKey(limit), [], events);
    assert [] + CircuitHistory(events) == CircuitHistory(events);
    ClosedWithoutFifthFailure(CircuitHistory(events));
  }

  // ---------------------------------------------------------------- the order of the waiters

  /** Waiters of high priority stand before all others and those of low priority behind, each class by arrival. */
  ghost predicate HighFirst(queue: seq<Waiter>) {
    forall i, j :: 0 <= i < j < |queue| ==>
      && (queue[j].priority == TaskPriority.High ==> queue[i].priority == TaskPriority.High)
      && (queue[i].priority == TaskPriority.Low ==> queue[j].priority == TaskPriority.Low)
      && (queue[i].priority == queue[j].priority ==> queue[i].id < queue[j].id)
  }

  lemma OrderedMeansHighFirst(queue: seq<Waiter>)
    requires Ordered(queue)
    ensures HighFirst(queue)
  {
    forall i, j | 0 <= i < j < |queue|
      ensures queue[j].priority == TaskPriority.High ==> queue[i].priority == TaskPriority.High
      ensures queue[i].priority == TaskPriority.Low ==> queue[j].priority == TaskPriority.Low
      ensures queue[i].priority == queue[j].priority ==> queue[i].id < queue[j].id
    {
      assert Precedes(queue[i], queue[j]);
    }
  }

  /** In every run the queue is in that order, and a release with waiters grants its first one and no other. */
  lemma WaitersAreServedHighFirst(limit: int, events: seq<Event>, id: nat)
    requires Possible(Start(limit), events)
    requires After(Start(limit), events).key.limit.Finite? && Enabled(After(Start(limit), events), Release(id))
    ensures var w := After(Start(limit), events);
            var t := Step(w, Release(id));
      && HighFirst(w.key.queue)
      && (w.key.queue != [] ==>
            && t.key.queue == w.key.queue[1..]
            && t.outstanding == w.outstanding - {id} + {w.key.queue[0].id}
            && t.settled == w.settled + [Settlement(w.key.queue[0].id, Resolved)])
  {
    QueueIsAlwaysSorted(limit, events);
    OrderedMeansHighFirst(After(Start(limit), events).key.queue);
  }

  // ---------------------------------------------------------------- configured limits

  lemma {:induction false} ProviderIsFirstPart(provider: string, rest: string)
    requires '/' !in provider && (rest == "" || rest[0] == '/')
    ensures Provider(provider + rest) == provider
    decreases |provider|
  {
    if provider != "" {
      assert (provider + rest)[1..] == provider[1..] + rest;
      ProviderIsFirstPart(provider[1..], rest);
    } else {
      assert provider + rest == rest;
    }
  }

  function Unlimited0(n: int): Limit {
    if n == 0 then Infinity else Finite(n)
  }

  /** The limit of a key that was never set: its model's, else that of its provider, the part before the first
      slash, else its agent's, where 0 means unlimited; else the default, which is taken as it is, else 10. */
  lemma ConfiguredExactly(config: Config, provider: string, rest: string)
    requires '/' !in provider && (rest == "" || rest[0] == '/')
    ensures ConfiguredLimit(config, provider + rest) ==
      var key := provider + rest;
      if key in config.modelConcurrency then Unlimited0(config.modelConcurrency[key])
      else if provider in config.providerConcurrency then Unlimited0(config.providerConcurrency[provider])
      else if key in config.agentConcurrency then Unlimited0(config.agentConcurrency[key])
      else if config.defaultConcurrency.Some? then Finite(config.defaultConcurrency.value)
      else Finite(10)
  {
    ProviderIsFirstPart(provider, rest);
  }

  /** A limit that is set stays until the next report or setting; 0 means unlimited. */
  lemma LimitIsSet(w: World, n: int)
    ensures Step(w, SetLimit(Finite(n))).key.limit == if n == 0 then Infinity else Finite(n)
    ensures Step(w, SetLimit(Infinity)).key.limit == Infinity
  {
  }

  // ---------------------------------------------------------------- mixed reports

  /** How many reports in a row with this result end the run; other events do not interrupt it. */
  function Trailing(events: seq<Event>, success: bool): nat {
    if events == [] then 0
    else
      var front, e := events[..|events| - 1], events[|events| - 1];
      if !e.Report? then Trailing(front, success)
      else if e.success == success then 1 + Trailing(front, success)
      else 0
  }

  function Raised(limit: Limit): Limit {
    if limit.Finite? && limit.n < 50 then (if limit.n == -1 then Infinity else Finite(limit.n + 1)) else limit
  }

  function Cut(limit: Limit): Limit {
    if limit.Finite? && limit.n > 1 then Finite(limit.n - 1) else limit
  }

  ghost predicate CountersFollow(k: KeyState, events: seq<Event>) {
    && (k.limit.Finite? && k.limit.n < 50 ==> k.streak == Trailing(events, true) % 3)
    && (k.limit.Infinity? || k.limit.n > 1 ==> k.failures == Trailing(events, false) % 2)
    && (Trailing(events, true) == 0 ==> k.streak == 0)
    && (Trailing(events, false) == 0 ==> k.failures == 0)
  }

  lemma AfterOneMore(w: World, events: seq<Event>, e: Event)
    ensures After(w, events + [e]) == Step(After(w, events), e)
    decreases |events|
  {
    if events == [] {
      assert events + [e] == [e] && [e][1..] == [];
    } else {
      assert (events + [e])[1..] == events[1..] + [e];
      AfterOneMore(Step(w, events[0]), events[1..], e);
    }
  }

  lemma TrailingOneMore(events: seq<Event>, e: Event, success: bool)
    ensures Trailing(events + [e], success)
         == if !e.Report? then Trailing(events, success) else if e.success == success then 1 + Trailing(events, success) else 0
  {
    assert (events + [e])[..|events|] == events;
  }

  lemma ReportMoves(k: KeyState, events: seq<Event>, e: Event)
    requires CountersFollow(k, events) && e.Report?
    ensures var t := ReportOn(k, e.success, e.now);
      && t.limit == (if e.success then (if Trailing(events + [e], true) % 3 == 0 then Raised(k.limit) else k.limit)
                     else (if Trailing(events + [e], false) % 2 == 0 then Cut(k.limit) else k.limit))
      && CountersFollow(t, events + [e])
  {
    TrailingOneMore(events, e, true);
    TrailingOneMore(events, e, false);
  }

  lemma {:induction false} CountersAlwaysFollow(w: World, events: seq<Event>)
    requires w.key.streak == w.key.failures == 0 && NothingSet(events)
    ensures CountersFollow(After(w, events).key, events)
    decreases |events|
  {
    if events != [] {
      var front, e := events[..|events| - 1], events[|events| - 1];
      assert events == front + [e] && e in events;
      CountersAlwaysFollow(w, front);
      AfterOneMore(w, front, e);
      if e.Report? {
        ReportMoves(After(w, front).key, front, e);
      } else {
        TrailingOneMore(front, e, true);
        TrailingOneMore(front, e, false);
      }
    }
  }

  /** Over any mixture of reports and other events that do not set the limit, a success raises it by one below 50
      exactly when it is the third, sixth and so on in a row, and a failure lowers it by one above 1 exactly when it
      is the second, fourth and so on in a row; raising minus one makes it unlimited. Nothing else moves it. */
  lemma ReportsMoveLimitExactly(w: World, events: seq<Event>, e: Event)
    requires w.key.streak == w.key.failures == 0 && NothingSet(events + [e])
    ensures var limit := After(w, events).key.limit;
      After(w, events + [e]).key.limit ==
      if !e.Report? then limit
      else if e.success then (if Trailing(events + [e], true) % 3 == 0 then Raised(limit) else limit)
      else (if Trailing(events + [e], false) % 2 == 0 then Cut(limit) else limit)
  {
    assert NothingSet(events) by {
      forall x | x in events ensures !x.SetLimit? {
        assert x in events + [e];
      }
    }
    assert (events + [e])[|events|] == e;
    CountersAlwaysFollow(w, events);
    AfterOneMore(w, events, e);
    if e.Report? {
      ReportMoves(After(w, events).key, events, e);
    }
  }
}
