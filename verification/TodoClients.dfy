/** What the callers of the todo file experience over whole runs: how often a retry loop reads and retries,
    when `false` is returned, and in which order updates run. */
module TodoClients {
  import opened Prelude
  import opened TodoManager
  import opened TodoRuns

  // ---------------------------------------------------------------- counting a client's rounds

  /** How often client `c` reads the version. */
  function Reads(events: seq<Event>, c: nat): nat {
    if events == [] then 0 else (if events[0] == ReadVersion(c) then 1 else 0) + Reads(events[1..], c)
  }

  /** The update of client `c`, about to compare versions under the mutex, finds another than it expects. */
  ghost predicate ConflictAt(s: System, e: Event, c: nat) {
    && e.Advance? && s.queue != [] && s.queue[0] == c && c < |s.clients|
    && s.phase.Some? && s.phase.value.GotContent?
    && s.clients[c].state.Calling? && s.version != s.clients[c].state.expected
  }

  /** How many updates of client `c` end in a conflict. */
  ghost function Conflicts(s: System, events: seq<Event>, c: nat): nat
    requires WellFormed(s) && Possible(s, events)
    decreases |events|
  {
    if events == [] then 0
    else
      StepIsWellFormed(s, events[0]);
      (if ConflictAt(s, events[0], c) then 1 else 0) + Conflicts(Step(s, events[0]), events[1..], c)
  }

  /** For every client that the run adds, whether it is an `updateItem` or `addSubTask`. */
  function Makers(events: seq<Event>): seq<bool> {
    if events == [] then []
    else (if events[0].CallItem? then [true] else if events[0].CallUpdate? then [false] else []) + Makers(events[1..])
  }

  /** What a client's state says about the reads and conflicts so far. A retry loop has five tries; it is in its
      last read's round until that ends in a conflict. A direct update does not read and has one try. */
  ghost predicate Story(client: Client, item: bool, rounds: nat, conflicts: nat) {
    if item then
      && client.triesLeft + rounds == 5
      && match client.state
         case Ready => conflicts == rounds < 5
         case HasVersion(_) => rounds == conflicts + 1
         case Calling(_) => rounds == conflicts + 1
         case Done(Returned(false)) => conflicts == rounds == 5
         case Done(_) => rounds == conflicts + 1
    else
      && client.triesLeft == rounds == 0
      && match client.state
         case Ready => false
         case HasVersion(_) => conflicts == 0
         case Calling(_) => conflicts == 0
         case Done(Returned(false)) => conflicts == 1
         case Done(_) => conflicts == 0
  }

  lemma SettleContinues(s: System, outcome: Outcome, c: nat, item: bool, rounds: nat, conflicts: nat)
    requires WellFormed(s) && s.queue != [] && c < |s.clients| && Story(s.clients[c], item, rounds, conflicts)
    ensures c < |Settle(s, outcome).clients|
    ensures Story(Settle(s, outcome).clients[c], item, rounds,
                  conflicts + (if s.queue[0] == c && outcome.Conflict? then 1 else 0))
  {
    assert s.clients[s.queue[0]].state.Calling?;
  }

  lemma RetryContinues(s: System, a: nat, c: nat, item: bool, rounds: nat, conflicts: nat)
    requires WellFormed(s) && s.queue != [] && c < |s.clients| && Story(s.clients[c], item, rounds, conflicts)
    ensures c < |Retry(s, a).clients| && Story(Retry(s, a).clients[c], item, rounds, conflicts)
  {
    SettleContinues(s, Threw, c, item, rounds, conflicts);
  }

  lemma AdvanceContinues(s: System, fault: Fault, c: nat, item: bool, rounds: nat, conflicts: nat)
    requires WellFormed(s) && s.queue != [] && s.phase.Some?
    requires c < |s.clients| && Story(s.clients[c], item, rounds, conflicts)
    ensures c < |AdvanceHolder(s, fault).clients|
    ensures Story(AdvanceHolder(s, fault).clients[c], item, rounds,
                  conflicts + (if ConflictAt(s, Advance(fault), c) then 1 else 0))
  {
    assert s.clients[s.queue[0]].state.Calling?;
    match s.phase.value
    case Begin(a) =>
    case GotContent(a, read) =>
      SettleContinues(s, Conflict(s.version), c, item, rounds, conflicts);
      RetryContinues(s, a, c, item, rounds, conflicts);
    case Prepared(a, text, v) => RetryContinues(s, a, c, item, rounds, conflicts);
    case TempWritten(a, text, v) =>
      RetryContinues(s, a, c, item, rounds, conflicts);
      RetryContinues(s.(version := v), a, c, item, rounds, conflicts);
    case VersionWritten(a, text, v) =>
      RetryContinues(s, a, c, item, rounds, conflicts);
      SettleContinues(s.(content := text, log := s.log + [Entry(v, s.queue[0], s.clients[s.queue[0]].f)]), Success(v),
                      c, item, rounds, conflicts);
  }

  lemma StepContinues(s: System, e: Event, c: nat, item: bool, rounds: nat, conflicts: nat)
    requires WellFormed(s) && Enabled(s, e) && c < |s.clients| && Story(s.clients[c], item, rounds, conflicts)
    ensures c < |Step(s, e).clients|
    ensures Story(Step(s, e).clients[c], item, rounds + (if e == ReadVersion(c) then 1 else 0),
                  conflicts + (if ConflictAt(s, e, c) then 1 else 0))
  {
    match e
    case Advance(fault) => AdvanceContinues(s, fault, c, item, rounds, conflicts);
    case _ =>
  }

  lemma {:induction false} RunContinues(s: System, events: seq<Event>, c: nat, item: bool, rounds: nat, conflicts: nat)
    requires WellFormed(s) && Possible(s, events) && c < |s.clients| && Story(s.clients[c], item, rounds, conflicts)
    ensures c < |After(s, events).clients|
    ensures Story(After(s, events).clients[c], item, rounds + Reads(events, c), conflicts + Conflicts(s, events, c))
    decreases |events|
  {
    if events != [] {
      var e := events[0];
      StepContinues(s, e, c, item, rounds, conflicts);
      StepIsWellFormed(s, e);
      RunContinues(Step(s, e), events[1..], c, item,
                   rounds + (if e == ReadVersion(c) then 1 else 0), conflicts + (if ConflictAt(s, e, c) then 1 else 0));
    }
  }

  lemma StepMakes(s: System, e: Event)
    requires WellFormed(s) && Enabled(s, e)
    ensures |Step(s, e).clients| == |s.clients| + |Makers([e])|
    ensures forall c :: c >= |s.clients| ==> e != ReadVersion(c) && !ConflictAt(s, e, c)
    ensures Makers([e]) != [] ==> Story(Step(s, e).clients[|s.clients|], Makers([e])[0], 0, 0)
  {
    assert [e][1..] == [];
  }

  lemma MakersUnfold(events: seq<Event>)
    requires events != []
    ensures Makers(events) == Makers([events[0]]) + Makers(events[1..])
  {
    assert [events[0]][1..] == [];
  }

  lemma {:induction false} RunMakes(s: System, events: seq<Event>, c: nat)
    requires WellFormed(s) && Possible(s, events) && |s.clients| <= c < |After(s, events).clients|
    ensures |After(s, events).clients| == |s.clients| + |Makers(events)|
    ensures Story(After(s, events).clients[c], Makers(events)[c - |s.clients|], Reads(events, c), Conflicts(s, events, c))
    decreases |events|
  {
    var e := events[0];
    StepMakes(s, e);
    MakersUnfold(events);
    StepIsWellFormed(s, e);
    var t := Step(s, e);
    if c < |t.clients| {
      RunContinues(t, events[1..], c, Makers([e])[0], 0, 0);
      RunCounts(t, events[1..]);
    } else {
      RunMakes(t, events[1..], c);
    }
  }

  lemma {:induction false} RunCounts(s: System, events: seq<Event>)
    requires WellFormed(s) && Possible(s, events)
    ensures |After(s, events).clients| == |s.clients| + |Makers(events)|
    decreases |events|
  {
    if events != [] {
      StepMakes(s, events[0]);
      MakersUnfold(events);
      StepIsWellFormed(s, events[0]);
      RunCounts(Step(s, events[0]), events[1..]);
    }
  }

  // ---------------------------------------------------------------- the promises

  /** In every run a retry loop reads at most five times: its tries left and its reads make five. It has returned
      false only after five rounds that each ended in a conflict, and after a conflict in fewer it is about to
      read again. */
  lemma RetriesFiveTimes(start: Content, version: int, events: seq<Event>, c: nat)
    requires Possible(Initial(start, version), events)
    requires c < |After(Initial(start, version), events).clients|
    ensures |After(Initial(start, version), events).clients| == |Makers(events)|
    ensures var client := After(Initial(start, version), events).clients[c];
            var conflicts := Conflicts(Initial(start, version), events, c);
      Makers(events)[c] ==>
        && client.triesLeft + Reads(events, c) == 5
        && (client.state == Done(Returned(false)) <==> conflicts == 5)
        && (conflicts == Reads(events, c) < 5 <==>
              client.state == Ready && Enabled(After(Initial(start, version), events), ReadVersion(c)))
  {
    RunMakes(Initial(start, version), events, c);
  }

  /** A direct update returns false exactly when it has met its one conflict. */
  lemma DirectUpdateGivesUpAtOnce(start: Content, version: int, events: seq<Event>, c: nat)
    requires Possible(Initial(start, version), events)
    requires c < |After(Initial(start, version), events).clients|
    ensures |After(Initial(start, version), events).clients| == |Makers(events)|
    ensures var client := After(Initial(start, version), events).clients[c];
            var conflicts := Conflicts(Initial(start, version), events, c);
      !Makers(events)[c] ==>
        && Reads(events, c) == 0 && conflicts <= 1
        && (client.state == Done(Returned(false)) <==> conflicts == 1)
  {
    RunMakes(Initial(start, version), events, c);
  }

  // ---------------------------------------------------------------- what a client expects

  /** The version that client `c` read last, or was called with; `before` if the run has neither. */
  ghost function Expected(s: System, events: seq<Event>, c: nat, before: int): int
    requires WellFormed(s) && Possible(s, events)
    decreases |events|
  {
    if events == [] then before
    else
      StepIsWellFormed(s, events[0]);
      Expected(Step(s, events[0]), events[1..], c,
               if events[0] == ReadVersion(c) then s.version
               else if events[0].CallUpdate? && c == |s.clients| then events[0].expected
               else before)
  }

  /** The updater that client `c` was called with. */
  function Updaters(events: seq<Event>): seq<Updater> {
    if events == [] then []
    else (if events[0].CallItem? || events[0].CallUpdate? then [events[0].f] else []) + Updaters(events[1..])
  }

  ghost predicate Expects(client: Client, f: Updater, expected: int) {
    && client.f == f
    && (client.state.HasVersion? ==> client.state.expected == expected)
    && (client.state.Calling? ==> client.state.expected == expected)
  }

  lemma RetryExpects(s: System, a: nat, c: nat, f: Updater, expected: int)
    requires WellFormed(s) && s.queue != [] && c < |s.clients| && Expects(s.clients[c], f, expected)
    ensures c < |Retry(s, a).clients| && Expects(Retry(s, a).clients[c], f, expected)
  {
  }

  lemma AdvanceExpects(s: System, fault: Fault, c: nat, f: Updater, expected: int)
    requires WellFormed(s) && s.queue != [] && s.phase.Some? && c < |s.clients| && Expects(s.clients[c], f, expected)
    ensures c < |AdvanceHolder(s, fault).clients| && Expects(AdvanceHolder(s, fault).clients[c], f, expected)
  {
    match s.phase.value
    case Begin(a) =>
    case GotContent(a, _) => RetryExpects(s, a, c, f, expected);
    case Prepared(a, _, _) => RetryExpects(s, a, c, f, expected);
    case TempWritten(a, _, v) =>
      RetryExpects(s, a, c, f, expected);
      RetryExpects(s.(version := v), a, c, f, expected);
    case VersionWritten(a, _, _) => RetryExpects(s, a, c, f, expected);
  }

  lemma StepExpects(s: System, e: Event, c: nat, f: Updater, expected: int)
    requires WellFormed(s) && Enabled(s, e) && c < |s.clients| && Expects(s.clients[c], f, expected)
    ensures c < |Step(s, e).clients|
    ensures Expects(Step(s, e).clients[c], f, if e == ReadVersion(c) then s.version else expected)
  {
    match e
    case Advance(fault) => AdvanceExpects(s, fault, c, f, expected);
    case _ =>
  }

  lemma {:induction false} RunExpects(s: System, events: seq<Event>, c: nat, f: Updater, expected: int)
    requires WellFormed(s) && Possible(s, events) && c < |s.clients| && Expects(s.clients[c], f, expected)
    ensures c < |After(s, events).clients|
    ensures Expects(After(s, events).clients[c], f, Expected(s, events, c, expected))
    decreases |events|
  {
    if events != [] {
      var e := events[0];
      StepExpects(s, e, c, f, expected);
      StepIsWellFormed(s, e);
      RunExpects(Step(s, e), events[1..], c, f, if e == ReadVersion(c) then s.version else expected);
    }
  }

  lemma UpdatersUnfold(events: seq<Event>)
    requires events != []
    ensures Updaters(events) == Updaters([events[0]]) + Updaters(events[1..])
    ensures |Updaters([events[0]])| == |Makers([events[0]])|
  {
    assert [events[0]][1..] == [];
  }

  lemma NewClientExpects(s: System, e: Event, before: int)
    requires WellFormed(s) && Enabled(s, e) && Makers([e]) != []
    ensures Updaters([e]) != [] && |s.clients| < |Step(s, e).clients|
    ensures Expects(Step(s, e).clients[|s.clients|], Updaters([e])[0], if e.CallUpdate? then e.expected else before)
  {
    assert [e][1..] == [];
  }

  lemma {:induction false} RunMakesExpecting(s: System, events: seq<Event>, c: nat, before: int)
    requires WellFormed(s) && Possible(s, events) && |s.clients| <= c < |After(s, events).clients|
    ensures c - |s.clients| < |Updaters(events)|
    ensures Expects(After(s, events).clients[c], Updaters(events)[c - |s.clients|], Expected(s, events, c, before))
    decreases |events|
  {
    var e := events[0];
    var t := Step(s, e);
    StepMakes(s, e);
    UpdatersUnfold(events);
    StepIsWellFormed(s, e);
    if c < |t.clients| {
      NewClientExpects(s, e, before);
      RunExpects(t, events[1..], c, Updaters([e])[0], if e.CallUpdate? then e.expected else before);
    } else {
      RunMakesExpecting(t, events[1..], c, before);
    }
  }

  /** In every run a client that is about to update, or updating, expects the version that it read last, or that it
      was called with, and applies the updater that it was called with. */
  lemma ClientsExpectWhatTheyRead(start: Content, version: int, events: seq<Event>, c: nat)
    requires Possible(Initial(start, version), events)
    requires c < |After(Initial(start, version), events).clients|
    ensures c < |Updaters(events)|
    ensures Expects(After(Initial(start, version), events).clients[c], Updaters(events)[c],
                    Expected(Initial(start, version), events, c, 0))
  {
    RunMakesExpecting(Initial(start, version), events, c, 0);
  }

  // ---------------------------------------------------------------- the mutex is first come, first served

  /** The clients in the order in which they join the mutex chain. */
  function Entered(events: seq<Event>): seq<nat> {
    if events == [] then [] else (if events[0].Enter? then [events[0].c] else []) + Entered(events[1..])
  }

  /** The client whose update ends with this step, if one does: it no longer waits for its result. */
  ghost function Ends(s: System, e: Event): seq<nat>
    requires WellFormed(s) && Enabled(s, e)
  {
    if e.Advance? && Step(s, e).phase == None then [s.queue[0]] else []
  }

  /** The clients in the order in which their updates end. */
  ghost function Ended(s: System, events: seq<Event>): seq<nat>
    requires WellFormed(s) && Possible(s, events)
    decreases |events|
  {
    if events == [] then []
    else StepIsWellFormed(s, events[0]); Ends(s, events[0]) + Ended(Step(s, events[0]), events[1..])
  }

  /** The mutex stays with its holder or passes to the next in line. */
  ghost predicate MovesOn(s: System, t: System)
    requires s.queue != []
  {
    if t.phase == None then t.queue == s.queue[1..] else t.queue == s.queue
  }

  lemma SettleMovesOn(s: System, outcome: Outcome)
    requires WellFormed(s) && s.queue != []
    ensures MovesOn(s, Settle(s, outcome)) && Settle(s, outcome).phase == None
  {
  }

  lemma RetryMovesOn(s: System, a: nat)
    requires WellFormed(s) && s.queue != []
    ensures MovesOn(s, Retry(s, a))
  {
    SettleMovesOn(s, Threw);
  }

  lemma ReadingMovesOn(s: System, fault: Fault)
    requires WellFormed(s) && s.queue != [] && s.phase.Some? && (s.phase.value.Begin? || s.phase.value.GotContent?)
    ensures MovesOn(s, AdvanceHolder(s, fault))
  {
    if s.phase.value.GotContent? {
      SettleMovesOn(s, Conflict(s.version));
      RetryMovesOn(s, s.phase.value.attempt);
    }
  }

  lemma WritingMovesOn(s: System, fault: Fault)
    requires WellFormed(s) && s.queue != [] && s.phase.Some? && (s.phase.value.Prepared? || s.phase.value.TempWritten?)
    ensures MovesOn(s, AdvanceHolder(s, fault))
  {
    RetryMovesOn(s, s.phase.value.attempt);
    RetryMovesOn(s.(version := s.phase.value.newVersion), s.phase.value.attempt);
  }

  lemma RenamingMovesOn(s: System, fault: Fault)
    requires WellFormed(s) && s.queue != [] && s.phase.Some? && s.phase.value.VersionWritten?
    ensures MovesOn(s, AdvanceHolder(s, fault))
  {
    var VersionWritten(a, text, v) := s.phase.value;
    RetryMovesOn(s, a);
    SettleMovesOn(s.(content := text, log := s.log + [Entry(v, s.queue[0], s.clients[s.queue[0]].f)]), Success(v));
  }

  lemma AdvanceMovesOn(s: System, fault: Fault)
    requires WellFormed(s) && s.queue != [] && s.phase.Some?
    ensures MovesOn(s, AdvanceHolder(s, fault))
  {
    if s.phase.value.Begin? || s.phase.value.GotContent? {
      ReadingMovesOn(s, fault);
    } else if s.phase.value.VersionWritten? {
      RenamingMovesOn(s, fault);
    } else {
      WritingMovesOn(s, fault);
    }
  }

  lemma StepMovesOn(s: System, e: Event)
    requires WellFormed(s) && Enabled(s, e)
    ensures s.queue + Entered([e]) == Ends(s, e) + Step(s, e).queue
  {
    assert Entered([e]) == if e.Enter? then [e.c] else [] by { assert [e][1..] == []; }
    if e.Advance? {
      AdvanceMovesOn(s, e.fault);
      assert s.queue == [s.queue[0]] + s.queue[1..];
    }
  }

  lemma Regroup<X>(q: seq<X>, e1: seq<X>, e2: seq<X>, d1: seq<X>, d2: seq<X>, q1: seq<X>, q2: seq<X>)
    requires q + e1 == d1 + q1 && q1 + e2 == d2 + q2
    ensures q + (e1 + e2) == (d1 + d2) + q2
  {
    assert q + (e1 + e2) == (q + e1) + e2 == d1 + (q1 + e2);
  }

  lemma {:induction false} RunMovesOn(s: System, events: seq<Event>)
    requires WellFormed(s) && Possible(s, events)
    ensures s.queue + Entered(events) == Ended(s, events) + After(s, events).queue
    decreases |events|
  {
    if events != [] {
      var e, rest := events[0], events[1..];
      StepIsWellFormed(s, e);
      var t := Step(s, e);
      StepMovesOn(s, e);
      RunMovesOn(t, rest);
      assert [e][1..] == [];
      assert Entered(events) == Entered([e]) + Entered(rest);
      Regroup(s.queue, Entered([e]), Entered(rest), Ends(s, e), Ended(t, rest), t.queue, After(t, rest).queue);
    }
  }

  /** In every run updates end in the order in which they were called; those that have not ended wait in that
      order. */
  lemma FirstComeFirstServed(start: Content, version: int, events: seq<Event>)
    requires Possible(Initial(start, version), events)
    ensures Entered(events)
         == Ended(Initial(start, version), events) + After(Initial(start, version), events).queue
  {
    RunMovesOn(Initial(start, version), events);
    assert [] + Entered(events) == Entered(events);
  }
}
