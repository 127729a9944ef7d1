/** Every interleaving of clients of the todo file: direct updates, and the read-update-retry loops of
    `updateItem` and `addSubTask`, at the granularity of single file operations. */
module TodoRuns {
  import opened Prelude
  import opened TodoManager

  /** How far the update that holds the mutex has come. */
  datatype Phase =
    | Begin(attempt: nat)                                              // about to read the content
    | GotContent(attempt: nat, read: Content)                          // about to read the version
    | Prepared(attempt: nat, newContent: Content, newVersion: int)     // about to write the temporary file
    | TempWritten(attempt: nat, newContent: Content, newVersion: int)  // about to write the version
    | VersionWritten(attempt: nat, newContent: Content, newVersion: int) // about to rename

  /** `Returned(true)`, `Returned(false)`, or a raised exception. */
  datatype Result = Returned(ok: bool) | Raised

  datatype ClientState =
    | Ready                     // about to read the version (retry loops only)
    | HasVersion(expected: int) // about to call `update`
    | Calling(expected: int)    // waiting for the mutex, or holding it
    | Done(result: Result)

  /** `triesLeft` counts the remaining rounds of a retry loop; it is 0 for a direct update. */
  datatype Client = Client(f: Updater, triesLeft: nat, state: ClientState)

  /** One successful update. */
  datatype Entry = Entry(version: int, client: nat, f: Updater)

  /** `queue` is the FIFO chain of the mutex; its head holds the mutex while `phase` is set. */
  datatype System = System(
    content: Content, version: int, queue: seq<nat>, phase: Option<Phase>, clients: seq<Client>, log: seq<Entry>)

  datatype Event =
    | CallUpdate(f: Updater, expected: int)  // a new direct update
    | CallItem(f: Updater)                   // a new `updateItem` or `addSubTask`
    | ReadVersion(c: nat)                    // `readWithVersion` outside the mutex
    | Enter(c: nat)                          // `update` joins the mutex chain
    | Lock                                   // the head of the chain starts
    | Advance(fault: Fault)                  // the holder performs its next file operation

  ghost function Initial(content: Content, version: int): System {
    System(content, version, [], None, [], [])
  }

  // ---------------------------------------------------------------- steps

  ghost predicate Enabled(s: System, e: Event) {
    match e
    case CallUpdate(_, _) | CallItem(_) => true
    case ReadVersion(c) => c < |s.clients| && s.clients[c].state.Ready? && s.clients[c].triesLeft > 0
    case Enter(c) => c < |s.clients| && s.clients[c].state.HasVersion?
    case Lock => s.queue != [] && s.phase == None
    case Advance(_) => s.queue != [] && s.phase.Some?
  }

  ghost predicate WellFormed(s: System) {
    && (forall i :: 0 <= i < |s.queue| ==> s.queue[i] < |s.clients| && s.clients[s.queue[i]].state.Calling?)
    && (forall i, j :: 0 <= i < j < |s.queue| ==> s.queue[i] != s.queue[j])
    && (s.phase.Some? ==> s.queue != [])
  }

  ghost function WithState(s: System, c: nat, state: ClientState): System
    requires c < |s.clients|
  {
    s.(clients := s.clients[c := s.clients[c].(state := state)])
  }

  /** The mutex passes on and the client sees the outcome: the retry loops go round on a conflict. */
  ghost function Settle(s: System, outcome: Outcome): System
    requires WellFormed(s) && s.queue != []
  {
    var c := s.queue[0];
    var t := s.(queue := s.queue[1..], phase := None);
    match outcome
    case Success(_) => WithState(t, c, Done(Returned(true)))
    case Conflict(_) => WithState(t, c, if s.clients[c].triesLeft > 0 then Ready else Done(Returned(false)))
    case Threw => WithState(t, c, Done(Raised))
  }

  /** The `catch` block: give up after the last attempt. */
  ghost function Retry(s: System, attempt: nat): System
    requires WellFormed(s) && s.queue != []
  {
    if attempt == MAX_RETRIES - 1 then Settle(s, Threw) else s.(phase := Some(Begin(attempt + 1)))
  }

  ghost function AdvanceHolder(s: System, fault: Fault): System
    requires WellFormed(s) && s.queue != [] && s.phase.Some?
  {
    var c := s.queue[0];
    var client := s.clients[c];
    match s.phase.value
    case Begin(a) => s.(phase := Some(GotContent(a, s.content)))
    case GotContent(a, read) =>
      if s.version != client.state.expected then Settle(s, Conflict(s.version))
      else if client.f(read).None? then Retry(s, a)
      else s.(phase := Some(Prepared(a, client.f(read).value, s.version + 1)))
    case Prepared(a, text, v) =>
      if fault.TempWriteFails? then Retry(s, a) else s.(phase := Some(TempWritten(a, text, v)))
    case TempWritten(a, text, v) =>
      if fault.VersionWriteFails? then Retry(if fault.took then s.(version := v) else s, a)
      else s.(version := v, phase := Some(VersionWritten(a, text, v)))
    case VersionWritten(a, text, v) =>
      if fault.RenameFails? then Retry(s, a)
      else Settle(s.(content := text, log := s.log + [Entry(v, c, client.f)]), Success(v))
  }

  ghost function Step(s: System, e: Event): System
    requires WellFormed(s) && Enabled(s, e)
  {
    match e
    case CallUpdate(f, expected) => s.(clients := s.clients + [Client(f, 0, HasVersion(expected))])
    case CallItem(f) => s.(clients := s.clients + [Client(f, ITEM_RETRIES, Ready)])
    case ReadVersion(c) =>
      s.(clients := s.clients[c := s.clients[c].(triesLeft := s.clients[c].triesLeft - 1, state := HasVersion(s.version))])
    case Enter(c) =>
      WithState(s, c, Calling(s.clients[c].state.expected)).(queue := s.queue + [c])
    case Lock => s.(phase := Some(Begin(0)))
    case Advance(fault) => AdvanceHolder(s, fault)
  }

  lemma SettleIsWellFormed(s: System, outcome: Outcome)
    requires WellFormed(s) && s.queue != []
    ensures WellFormed(Settle(s, outcome))
  {
    assert forall i :: 0 <= i < |s.queue| - 1 ==> s.queue[1..][i] == s.queue[i + 1] != s.queue[0];
  }

  lemma RetryIsWellFormed(s: System, a: nat)
    requires WellFormed(s) && s.queue != []
    ensures WellFormed(Retry(s, a))
  {
    SettleIsWellFormed(s, Threw);
  }

  lemma AdvanceIsWellFormed(s: System, fault: Fault)
    requires WellFormed(s) && s.queue != [] && s.phase.Some?
    ensures WellFormed(AdvanceHolder(s, fault))
  {
    match s.phase.value
    case Begin(a) =>
    case GotContent(a, read) =>
      SettleIsWellFormed(s, Conflict(s.version));
      RetryIsWellFormed(s, a);
    case Prepared(a, text, v) => RetryIsWellFormed(s, a);
    case TempWritten(a, text, v) =>
      RetryIsWellFormed(s, a);
      RetryIsWellFormed(s.(version := v), a);
    case VersionWritten(a, text, v) =>
      RetryIsWellFormed(s, a);
      SettleIsWellFormed(s.(content := text, log := s.log + [Entry(v, s.queue[0], s.clients[s.queue[0]].f)]), Success(v));
  }

  lemma StepIsWellFormed(s: System, e: Event)
    requires WellFormed(s) && Enabled(s, e)
    ensures WellFormed(Step(s, e))
  {
    match e
    case CallUpdate(_, _) =>
    case CallItem(_) =>
    case ReadVersion(_) =>
    case Enter(_) =>
    case Lock =>
    case Advance(fault) => AdvanceIsWellFormed(s, fault);
  }

  ghost predicate Possible(s: System, events: seq<Event>)
    requires WellFormed(s)
    decreases |events|
  {
    events == [] ||
    (Enabled(s, events[0]) && (StepIsWellFormed(s, events[0]); Possible(Step(s, events[0]), events[1..])))
  }

  ghost function After(s: System, events: seq<Event>): (t: System)
    requires WellFormed(s) && Possible(s, events)
    ensures WellFormed(t)
    decreases |events|
  {
    if events == [] then s else StepIsWellFormed(s, events[0]); After(Step(s, events[0]), events[1..])
  }

  // ---------------------------------------------------------------- the invariant

  /** The updaters of `log`, applied one after the other; none of them throws. */
  ghost function Fold(start: Content, log: seq<Entry>): Option<Content> {
    if log == [] then Some(start)
    else
      var before := Fold(start, log[..|log| - 1]);
      if before.None? then None else log[|log| - 1].f(before.value)
  }

  /** How often the updater of client `c` has been applied. */
  ghost function TimesApplied(log: seq<Entry>, c: nat): nat {
    if log == [] then 0
    else TimesApplied(log[..|log| - 1], c) + (if log[|log| - 1].client == c then 1 else 0)
  }

  ghost predicate VersionsIncrease(log: seq<Entry>, version: int) {
    && (forall i, j :: 0 <= i < j < |log| ==> log[i].version < log[j].version)
    && forall i :: 0 <= i < |log| ==> log[i].version <= version
  }

  /** What the holder of the mutex knows about the files. */
  ghost predicate HolderInvariant(s: System)
    requires WellFormed(s)
  {
    s.phase.Some? ==>
      var client := s.clients[s.queue[0]];
      var expected := client.state.expected;
      match s.phase.value
      case Begin(a) => a < MAX_RETRIES
      case GotContent(a, read) => a < MAX_RETRIES && read == s.content
      case Prepared(a, text, v) =>
        a < MAX_RETRIES && client.f(s.content) == Some(text) && s.version == expected && v == expected + 1
      case TempWritten(a, text, v) =>
        a < MAX_RETRIES && client.f(s.content) == Some(text) && s.version == expected && v == expected + 1
      case VersionWritten(a, text, v) =>
        && a < MAX_RETRIES && client.f(s.content) == Some(text) && s.version == v == expected + 1
        && forall i :: 0 <= i < |s.log| ==> s.log[i].version <= expected
  }

  ghost predicate ClientsInvariant(s: System) {
    && (forall c :: 0 <= c < |s.clients| ==>
          TimesApplied(s.log, c) == if s.clients[c].state == Done(Returned(true)) then 1 else 0)
    && (forall i :: 0 <= i < |s.log| ==> s.log[i].client < |s.clients| && s.log[i].f == s.clients[s.log[i].client].f)
  }

  ghost predicate Invariant(start: Content, s: System) {
    && WellFormed(s)
    && Fold(start, s.log) == Some(s.content)
    && VersionsIncrease(s.log, s.version)
    && HolderInvariant(s)
    && ClientsInvariant(s)
  }

  lemma FoldAppends(start: Content, log: seq<Entry>, e: Entry)
    ensures Fold(start, log + [e]) == var b := Fold(start, log); if b.None? then None else e.f(b.value)
    ensures forall c :: TimesApplied(log + [e], c) == TimesApplied(log, c) + (if e.client == c then 1 else 0)
  {
    assert (log + [e])[..|log|] == log;
  }

  lemma {:induction false} StrangersAreNotApplied(log: seq<Entry>, c: nat)
    requires forall i :: 0 <= i < |log| ==> log[i].client != c
    ensures TimesApplied(log, c) == 0
  {
    if log != [] {
      StrangersAreNotApplied(log[..|log| - 1], c);
    }
  }

  lemma RetryKeepsInvariant(start: Content, s: System, a: nat)
    requires Invariant(start, s) && s.queue != [] && a < MAX_RETRIES
    ensures Invariant(start, Retry(s, a))
  {
  }

  lemma CommitKeepsInvariant(start: Content, s: System, fault: Fault)
    requires Invariant(start, s) && s.queue != [] && s.phase.Some? && s.phase.value.VersionWritten? && !fault.RenameFails?
    ensures Invariant(start, AdvanceHolder(s, fault))
  {
    var c := s.queue[0];
    var VersionWritten(a, text, v) := s.phase.value;
    var e := Entry(v, c, s.clients[c].f);
    var t := s.(content := text, log := s.log + [e]);
    FoldAppends(start, s.log, e);
    SettleIsWellFormed(t, Success(v));
    assert s.clients[c].state.Calling?;
  }

  lemma ReadsKeepInvariant(start: Content, s: System, fault: Fault)
    requires Invariant(start, s) && s.queue != [] && s.phase.Some? && s.phase.value.GotContent?
    ensures Invariant(start, AdvanceHolder(s, fault))
  {
    RetryKeepsInvariant(start, s, s.phase.value.attempt);
  }

  lemma VersionWriteKeepsInvariant(start: Content, s: System, fault: Fault)
    requires Invariant(start, s) && s.queue != [] && s.phase.Some? && s.phase.value.TempWritten?
    ensures Invariant(start, AdvanceHolder(s, fault))
  {
    var TempWritten(a, text, v) := s.phase.value;
    RetryKeepsInvariant(start, s, a);
    RetryKeepsInvariant(start, s.(version := v, phase := Some(Begin(a))), a);
  }

  lemma AdvanceKeepsInvariant(start: Content, s: System, fault: Fault)
    requires Invariant(start, s) && s.queue != [] && s.phase.Some?
    ensures Invariant(start, AdvanceHolder(s, fault))
  {
    match s.phase.value
    case Begin(a) =>
    case GotContent(a, read) => ReadsKeepInvariant(start, s, fault);
    case Prepared(a, text, v) => RetryKeepsInvariant(start, s, a);
    case TempWritten(a, text, v) => VersionWriteKeepsInvariant(start, s, fault);
    case VersionWritten(a, text, v) =>
      if fault.RenameFails? {
        RetryKeepsInvariant(start, s, a);
      } else {
        CommitKeepsInvariant(start, s, fault);
      }
  }

  lemma StepKeepsInvariant(start: Content, s: System, e: Event)
    requires Invariant(start, s) && Enabled(s, e)
    ensures Invariant(start, Step(s, e))
  {
    StepIsWellFormed(s, e);
    match e
    case CallUpdate(_, _) => StrangersAreNotApplied(s.log, |s.clients|);
    case CallItem(_) => StrangersAreNotApplied(s.log, |s.clients|);
    case Advance(fault) => AdvanceKeepsInvariant(start, s, fault);
    case _ =>
  }

  lemma {:induction false} RunKeepsInvariant(start: Content, s: System, events: seq<Event>)
    requires Invariant(start, s) && Possible(s, events)
    ensures Invariant(start, After(s, events))
    decreases |events|
  {
    if events != [] {
      StepKeepsInvariant(start, s, events[0]);
      RunKeepsInvariant(start, Step(s, events[0]), events[1..]);
    }
  }

  // ---------------------------------------------------------------- the promises

  /** In every run the content is the fold of the successful updaters in the order of their strictly
      increasing versions: no update is lost and none is applied to a stale content. */
  lemma NoUpdateIsLost(start: Content, version: int, events: seq<Event>)
    requires Possible(Initial(start, version), events)
    ensures var s := After(Initial(start, version), events);
            && Fold(start, s.log) == Some(s.content)
            && forall i, j :: 0 <= i < j < |s.log| ==> s.log[i].version < s.log[j].version <= s.version
  {
    RunKeepsInvariant(start, Initial(start, version), events);
  }

  /** `updateItem`, `addSubTask` and `update` report success if and only if the updater has been
      applied, and then it has been applied exactly once. */
  lemma SuccessMeansAppliedOnce(start: Content, version: int, events: seq<Event>, c: nat)
    requires Possible(Initial(start, version), events)
    requires c < |After(Initial(start, version), events).clients|
    ensures var s := After(Initial(start, version), events);
            TimesApplied(s.log, c) == if s.clients[c].state == Done(Returned(true)) then 1 else 0
  {
    RunKeepsInvariant(start, Initial(start, version), events);
  }

  /** The content changes only in the rename by which the holder succeeds, and then the holder's
      expected version was current and nothing had been committed after it. */
  lemma OnlySuccessChangesContent(start: Content, version: int, events: seq<Event>, e: Event)
    requires Possible(Initial(start, version), events)
    requires Enabled(After(Initial(start, version), events), e)
    ensures var s := After(Initial(start, version), events);
            var t := Step(s, e);
            && s.version <= t.version
            && (t.log == s.log ==> t.content == s.content)
            && (t.log != s.log ==>
                  var c := s.queue[0];
                  var expected := s.clients[c].state.expected;
                  && t.clients[c].state == Done(Returned(true))
                  && t.log == s.log + [Entry(expected + 1, c, s.clients[c].f)]
                  && s.clients[c].f(s.content) == Some(t.content)
                  && forall i :: 0 <= i < |s.log| ==> s.log[i].version <= expected)
  {
    RunKeepsInvariant(start, Initial(start, version), events);
  }

  // ---------------------------------------------------------------- what a read outside the mutex guarantees

  ghost predicate RenamePending(s: System) {
    s.phase.Some? && s.phase.value.VersionWritten?
  }

  /** A read taken while no rename is pending pins the content: whenever the version is found
      unchanged later, so is the content. */
  lemma {:induction false} VersionPinsContent(start: Content, s: System, events: seq<Event>)
    requires Invariant(start, s) && Possible(s, events) && !RenamePending(s)
    ensures var t := After(s, events);
            s.version < t.version || (s.version == t.version && s.content == t.content && !RenamePending(t))
    decreases |events|
  {
    if events != [] {
      var t := Step(s, events[0]);
      StepKeepsInvariant(start, s, events[0]);
      if s.version < t.version {
        VersionNeverDecreases(start, t, events[1..]);
      } else {
        VersionPinsContent(start, t, events[1..]);
      }
    }
  }

  lemma {:induction false} VersionNeverDecreases(start: Content, s: System, events: seq<Event>)
    requires Invariant(start, s) && Possible(s, events)
    ensures s.version <= After(s, events).version
    decreases |events|
  {
    if events != [] {
      StepKeepsInvariant(start, s, events[0]);
      VersionNeverDecreases(start, Step(s, events[0]), events[1..]);
    }
  }

  /** Whatever happens next, finding the version of `s` again means finding `content`. */
  ghost predicate PinsTo(s: System, content: Content)
    requires WellFormed(s)
  {
    forall events :: Possible(s, events) && After(s, events).version == s.version ==> After(s, events).content == content
  }

  /** Finding the version of `s` again means finding its content again. */
  ghost predicate Pinned(s: System)
    requires WellFormed(s)
  {
    PinsTo(s, s.content)
  }

  /** A pending rename that changes nothing is as good as none. */
  lemma {:induction false} IdleRenamePinsContent(start: Content, s: System, events: seq<Event>)
    requires Invariant(start, s) && Possible(s, events)
    requires RenamePending(s) && s.phase.value.newContent == s.content
    ensures var t := After(s, events); s.version < t.version || (s.version == t.version && s.content == t.content)
    decreases |events|
  {
    if events != [] {
      var t := Step(s, events[0]);
      StepKeepsInvariant(start, s, events[0]);
      if RenamePending(t) {
        IdleRenamePinsContent(start, t, events[1..]);
      } else {
        VersionPinsContent(start, t, events[1..]);
      }
    }
  }

  lemma NextOnly(s: System, e: Event)
    requires WellFormed(s) && Enabled(s, e)
    ensures Possible(s, [e]) && After(s, [e]) == Step(s, e)
  {
    StepIsWellFormed(s, e);
    assert [e][1..] == [];
  }

  /** While a rename is pending the version is already the new one and the content still the old one. So a
      read pins the content exactly when no rename is pending, or only one that changes nothing. */
  lemma ContentIsPinnedExactly(start: Content, s: System)
    requires Invariant(start, s)
    ensures Pinned(s) <==> !RenamePending(s) || s.phase.value.newContent == s.content
  {
    if !RenamePending(s) {
      forall events | Possible(s, events) && After(s, events).version == s.version
        ensures After(s, events).content == s.content
      {
        VersionPinsContent(start, s, events);
      }
    } else if s.phase.value.newContent == s.content {
      forall events | Possible(s, events) && After(s, events).version == s.version
        ensures After(s, events).content == s.content
      {
        IdleRenamePinsContent(start, s, events);
      }
    } else {
      NextOnly(s, Advance(NoFault));
    }
  }

  lemma Unfolds(s: System, e: Event, rest: seq<Event>)
    requires WellFormed(s) && Enabled(s, e)
    ensures WellFormed(Step(s, e))
    ensures Possible(s, [e] + rest) <==> Possible(Step(s, e), rest)
    ensures Possible(s, [e] + rest) ==> After(s, [e] + rest) == After(Step(s, e), rest)
  {
    StepIsWellFormed(s, e);
    assert ([e] + rest)[1..] == rest;
  }

  /** A single update up to its rename. */
  function UpToRename(f: Updater, version: int): seq<Event> {
    [CallUpdate(f, version)] + ([Enter(0)] + ([Lock] + FourAdvances()))
  }

  function FourAdvances(): seq<Event> {
    [Advance(NoFault)] + ([Advance(NoFault)] + ([Advance(NoFault)] + ([Advance(NoFault)] + [])))
  }

  lemma ReadsVersion(s: System, read: Content, text: Content)
    requires WellFormed(s) && s.queue != [] && s.phase == Some(GotContent(0, read))
    requires s.clients[s.queue[0]].state.expected == s.version && s.clients[s.queue[0]].f(read) == Some(text)
    ensures Step(s, Advance(NoFault)) == s.(phase := Some(Prepared(0, text, s.version + 1)))
  {
  }

  lemma ReadsBoth(s: System, text: Content, rest: seq<Event>)
    requires WellFormed(s) && s.queue != [] && s.phase == Some(Begin(0))
    requires s.clients[s.queue[0]].state.expected == s.version && s.clients[s.queue[0]].f(s.content) == Some(text)
    ensures var t := s.(phase := Some(Prepared(0, text, s.version + 1)));
            var events := [Advance(NoFault)] + ([Advance(NoFault)] + rest);
            && (Possible(s, events) <==> Possible(t, rest))
            && (Possible(s, events) ==> After(s, events) == After(t, rest))
  {
    var m := s.(phase := Some(GotContent(0, s.content)));
    assert Step(s, Advance(NoFault)) == m;
    ReadsVersion(m, s.content, text);
    assert Step(m, Advance(NoFault)) == s.(phase := Some(Prepared(0, text, s.version + 1)));
    Unfolds(s, Advance(NoFault), [Advance(NoFault)] + rest);
    Unfolds(m, Advance(NoFault), rest);
  }

  lemma WritesTwo(s: System, text: Content)
    requires WellFormed(s) && s.queue != [] && s.phase == Some(Prepared(0, text, s.version + 1))
    ensures var events := [Advance(NoFault)] + ([Advance(NoFault)] + []);
            && Possible(s, events)
            && After(s, events) == s.(version := s.version + 1, phase := Some(VersionWritten(0, text, s.version + 1)))
  {
    Unfolds(s, Advance(NoFault), [Advance(NoFault)] + []);
    Unfolds(Step(s, Advance(NoFault)), Advance(NoFault), []);
  }

  lemma WritesTheVersion(s: System, text: Content)
    requires WellFormed(s) && s.queue != [] && s.phase == Some(Begin(0))
    requires s.clients[s.queue[0]].state.expected == s.version && s.clients[s.queue[0]].f(s.content) == Some(text)
    ensures Possible(s, FourAdvances())
    ensures After(s, FourAdvances()) == s.(version := s.version + 1, phase := Some(VersionWritten(0, text, s.version + 1)))
  {
    ReadsBoth(s, text, [Advance(NoFault)] + ([Advance(NoFault)] + []));
    WritesTwo(s.(phase := Some(Prepared(0, text, s.version + 1))), text);
  }

  lemma ReachesRename(start: Content, version: int, f: Updater)
    requires f(start).Some?
    ensures Possible(Initial(start, version), UpToRename(f, version))
    ensures After(Initial(start, version), UpToRename(f, version))
         == System(start, version + 1, [0], Some(VersionWritten(0, f(start).value, version + 1)),
                   [Client(f, 0, Calling(version))], [])
  {
    StartsUpdate(start, version, f);
    WritesTheVersion(Started(start, version, f), f(start).value);
  }

  /** The system when a single update has locked the mutex. */
  ghost function Started(start: Content, version: int, f: Updater): System {
    System(start, version, [0], Some(Begin(0)), [Client(f, 0, Calling(version))], [])
  }

  lemma StartsUpdate(start: Content, version: int, f: Updater)
    ensures Possible(Initial(start, version), UpToRename(f, version)) <==> Possible(Started(start, version, f), FourAdvances())
    ensures Possible(Initial(start, version), UpToRename(f, version))
        ==> After(Initial(start, version), UpToRename(f, version)) == After(Started(start, version, f), FourAdvances())
  {
    var s := Initial(start, version);
    var a := Step(s, CallUpdate(f, version));
    var b := Step(a, Enter(0));
    Unfolds(s, CallUpdate(f, version), [Enter(0)] + ([Lock] + FourAdvances()));
    Unfolds(a, Enter(0), [Lock] + FourAdvances());
    Unfolds(b, Lock, FourAdvances());
    assert Step(b, Lock) == Started(start, version, f);
  }

  /** From any files, an update that changes the content passes through a state in which a read is not
      pinned: the version is the new one and the content the old one. */
  lemma SomeReadIsNotPinned(start: Content, version: int, f: Updater)
    requires f(start).Some? && f(start) != Some(start)
    ensures Possible(Initial(start, version), UpToRename(f, version))
    ensures var s := After(Initial(start, version), UpToRename(f, version));
            s.content == start && s.version == version + 1 && !Pinned(s)
  {
    ReachesRename(start, version, f);
    RunKeepsInvariant(start, Initial(start, version), UpToRename(f, version));
    ContentIsPinnedExactly(start, After(Initial(start, version), UpToRename(f, version)));
  }

  // ---------------------------------------------------------------- content and version, read one after the other

  /** `readWithVersion` reads the content in one state and the version in a later one. The pair is good, that
      is, finding the version again means finding that content, exactly when the content has not changed in
      between and no rename is pending at the second read, or only one that changes nothing. */
  lemma PairIsPinnedExactly(start: Content, s: System, between: seq<Event>)
    requires Invariant(start, s) && Possible(s, between)
    ensures PinsTo(After(s, between), s.content)
       <==> s.content == After(s, between).content
            && (!RenamePending(After(s, between)) || After(s, between).phase.value.newContent == s.content)
  {
    var t := After(s, between);
    RunKeepsInvariant(start, s, between);
    ContentIsPinnedExactly(start, t);
    if PinsTo(t, s.content) {
      assert Possible(t, []) && After(t, []) == t;
    }
  }

  /** A single update from beginning to end. */
  function WholeUpdate(f: Updater, version: int): seq<Event> {
    UpToRename(f, version) + [Advance(NoFault)]
  }

  lemma {:induction false} ThenOne(s: System, events: seq<Event>, e: Event)
    requires WellFormed(s) && Possible(s, events) && Enabled(After(s, events), e)
    ensures Possible(s, events + [e])
    ensures After(s, events + [e]) == Step(After(s, events), e)
    decreases |events|
  {
    if events == [] {
      assert events + [e] == [e];
      NextOnly(s, e);
    } else {
      assert (events + [e])[1..] == events[1..] + [e];
      StepIsWellFormed(s, events[0]);
      ThenOne(Step(s, events[0]), events[1..], e);
    }
  }

  /** From any files, an update that changes the content and falls between the two reads makes a bad pair: the
      old content with the new version, although no rename is pending at either read. */
  lemma SomePairIsNotPinned(start: Content, version: int, f: Updater)
    requires f(start).Some? && f(start) != Some(start)
    ensures Possible(Initial(start, version), WholeUpdate(f, version))
    ensures var t := After(Initial(start, version), WholeUpdate(f, version));
            && !RenamePending(Initial(start, version)) && !RenamePending(t)
            && Some(t.content) == f(start) && t.version == version + 1 && !PinsTo(t, start)
  {
    var s, events := Initial(start, version), UpToRename(f, version);
    ReachesRename(start, version, f);
    ThenOne(s, events, Advance(NoFault));
    PairIsPinnedExactly(start, s, WholeUpdate(f, version));
  }

  // ---------------------------------------------------------------- the mutex is always passed on

  /** An upper bound on the file operations that the holder still performs. */
  function OperationsLeft(phase: Phase): nat {
    var rounds := if phase.attempt < MAX_RETRIES then MAX_RETRIES - 1 - phase.attempt else 0;
    5 * rounds +
    match phase
    case Begin(_) => 5
    case GotContent(_, _) => 4
    case Prepared(_, _, _) => 3
    case TempWritten(_, _, _) => 2
    case VersionWritten(_, _, _) => 1
  }

  /** Whatever fails, every operation of the holder either passes the mutex to the next in line
      or leaves fewer of the at most fifteen operations to do. */
  lemma HolderFinishes(start: Content, s: System, fault: Fault)
    requires Invariant(start, s) && s.phase.Some?
    ensures OperationsLeft(s.phase.value) <= 15
    ensures var t := Step(s, Advance(fault));
            || (t.phase == None && t.queue == s.queue[1..])
            || (t.phase.Some? && t.queue == s.queue && OperationsLeft(t.phase.value) < OperationsLeft(s.phase.value))
  {
  }

  // ---------------------------------------------------------------- the steps refine the update

  /** The holder performs its operations until it passes the mutex on; `faults[a]` strikes in attempt `a`. */
  ghost function RunHolder(s: System, faults: seq<Fault>): System
    requires WellFormed(s) && s.phase.Some? && s.phase.value.attempt < MAX_RETRIES == |faults|
    decreases OperationsLeft(s.phase.value)
  {
    AdvanceIsWellFormed(s, faults[s.phase.value.attempt]);
    var t := AdvanceHolder(s, faults[s.phase.value.attempt]);
    if t.phase.None? then t else RunHolder(t, faults)
  }

  /** The state in which the whole of `_internalUpdate`, run in one go, leaves the system. */
  ghost function InOneGo(s: System, u: Updated): System
    requires WellFormed(s) && s.queue != []
  {
    var c := s.queue[0];
    var entries := if u.outcome.Success? then [Entry(u.version, c, s.clients[c].f)] else [];
    Settle(s.(content := u.content, version := u.version, log := s.log + entries), u.outcome)
  }

  /** Leaving an attempt through the `catch` block, and everything that follows. */
  ghost function RetryAndRun(s: System, a: nat, faults: seq<Fault>): System
    requires WellFormed(s) && s.queue != [] && a < MAX_RETRIES == |faults|
  {
    RetryIsWellFormed(s, a);
    var t := Retry(s, a);
    if t.phase.None? then t else RunHolder(t, faults)
  }

  ghost predicate AtAttempt(s: System, a: nat, faults: seq<Fault>) {
    WellFormed(s) && s.phase == Some(Begin(a)) && a < MAX_RETRIES == |faults|
  }

  ghost function Holder(s: System): Client
    requires WellFormed(s) && s.queue != []
  {
    s.clients[s.queue[0]]
  }

  /** After the two reads an attempt has either given up or prepared its content. */
  lemma AfterReads(s: System, a: nat, faults: seq<Fault>)
    requires AtAttempt(s, a, faults)
    ensures RunHolder(s, faults) ==
            if s.version != Holder(s).state.expected then Settle(s, Conflict(s.version))
            else if Holder(s).f(s.content).None? then RetryAndRun(s, a, faults)
            else RunHolder(s.(phase := Some(Prepared(a, Holder(s).f(s.content).value, s.version + 1))), faults)
  {
    var t := s.(phase := Some(GotContent(a, s.content)));
    assert RunHolder(s, faults) == RunHolder(t, faults);
    assert Retry(t, a) == Retry(s, a);
  }

  /** After the three writes an attempt has either failed or committed. */
  lemma AfterWrites(s: System, a: nat, text: Content, faults: seq<Fault>)
    requires WellFormed(s) && s.phase == Some(Prepared(a, text, s.version + 1)) && a < MAX_RETRIES == |faults|
    ensures RunHolder(s, faults) ==
            match faults[a]
            case TempWriteFails => RetryAndRun(s, a, faults)
            case VersionWriteFails(took) => RetryAndRun(if took then s.(version := s.version + 1) else s, a, faults)
            case RenameFails => RetryAndRun(s.(version := s.version + 1), a, faults)
            case NoFault => InOneGo(s, Updated(Success(s.version + 1), text, s.version + 1))
  {
    if !faults[a].TempWriteFails? {
      var t := s.(phase := Some(TempWritten(a, text, s.version + 1)));
      assert RunHolder(s, faults) == RunHolder(t, faults);
      AfterTempWrite(t, a, text, faults);
      assert Retry(t, a) == Retry(s, a);
      assert Retry(t.(version := s.version + 1), a) == Retry(s.(version := s.version + 1), a);
    }
  }

  lemma AfterTempWrite(s: System, a: nat, text: Content, faults: seq<Fault>)
    requires WellFormed(s) && s.phase == Some(TempWritten(a, text, s.version + 1)) && a < MAX_RETRIES == |faults|
    requires !faults[a].TempWriteFails?
    ensures RunHolder(s, faults) ==
            match faults[a]
            case VersionWriteFails(took) => RetryAndRun(if took then s.(version := s.version + 1) else s, a, faults)
            case RenameFails => RetryAndRun(s.(version := s.version + 1), a, faults)
            case _ => InOneGo(s, Updated(Success(s.version + 1), text, s.version + 1))
  {
    if !faults[a].VersionWriteFails? {
      var t := s.(version := s.version + 1, phase := Some(VersionWritten(a, text, s.version + 1)));
      assert RunHolder(s, faults) == RunHolder(t, faults);
      assert Retry(t, a) == Retry(s.(version := s.version + 1), a);
    }
  }

  /** Performed step by step under the mutex, an update does to the files, the log and the clients
      exactly what `_internalUpdate` does when it runs in one go. */
  lemma {:induction false} StepsRefineUpdate(s: System, a: nat, faults: seq<Fault>)
    requires AtAttempt(s, a, faults)
    ensures RunHolder(s, faults)
         == InOneGo(s, UpdateFrom(a, s.content, s.version, Holder(s).state.expected, Holder(s).f, faults))
    decreases MAX_RETRIES - a
  {
    AfterReads(s, a, faults);
    assert s.log + [] == s.log;
    if s.version == Holder(s).state.expected {
      if Holder(s).f(s.content).None? {
        RetryRefines(s, a, faults);
      } else {
        var text := Holder(s).f(s.content).value;
        WritesRefine(s.(phase := Some(Prepared(a, text, s.version + 1))), a, text, faults);
      }
    }
  }

  lemma {:induction false} WritesRefine(s: System, a: nat, text: Content, faults: seq<Fault>)
    requires WellFormed(s) && s.phase == Some(Prepared(a, text, s.version + 1)) && a < MAX_RETRIES == |faults|
    requires s.version == Holder(s).state.expected && Holder(s).f(s.content) == Some(text)
    ensures RunHolder(s, faults)
         == InOneGo(s, UpdateFrom(a, s.content, s.version, Holder(s).state.expected, Holder(s).f, faults))
    decreases MAX_RETRIES - a, 1
  {
    AfterWrites(s, a, text, faults);
    RetryRefines(s, a, faults);
    RetryRefines(s.(version := s.version + 1), a, faults);
  }

  lemma {:induction false} RetryRefines(s: System, a: nat, faults: seq<Fault>)
    requires WellFormed(s) && s.queue != [] && a < MAX_RETRIES == |faults|
    ensures RetryAndRun(s, a, faults)
         == InOneGo(s, RetryFrom(a, s.content, s.version, Holder(s).state.expected, Holder(s).f, faults))
    decreases MAX_RETRIES - a, 0
  {
    assert s.log + [] == s.log;
    if a < MAX_RETRIES - 1 {
      StepsRefineUpdate(s.(phase := Some(Begin(a + 1))), a + 1, faults);
    }
  }
}
