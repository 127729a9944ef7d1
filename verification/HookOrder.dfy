/** What the order of hooks means in terms of their own phases, priorities and registration times, for any run
    of registrations. */
module HookOrder {
  import opened Prelude
  import opened StableSort
  import opened HookRegistry
  import opened HookHistories

  /** `a` has to run before `b`: by an earlier phase, or in the same phase by a smaller priority. */
  predicate RunsFirst<T>(a: Registration<T>, b: Registration<T>) {
    || (a.phase == Phase.Early && b.phase != Phase.Early)
    || (a.phase != Phase.Late && b.phase == Phase.Late)
    || (a.phase == b.phase && a.priority < b.priority)
  }

  lemma RunsFirstIsStrict<T>(a: Registration<T>, b: Registration<T>)
    ensures RunsFirst(a, b) <==> !RanksBefore(b, a)
  {
  }

  /** Early hooks come first and late ones last, and within a phase smaller priorities come first. */
  ghost predicate InOrder<T>(out: seq<Registration<T>>) {
    forall i, j :: 0 <= i < j < |out| ==>
      && (out[j].phase == Phase.Early ==> out[i].phase == Phase.Early)
      && (out[i].phase == Phase.Late ==> out[j].phase == Phase.Late)
      && (out[i].phase == out[j].phase ==> out[i].priority <= out[j].priority)
  }

  /** Registrations with the same phase and priority stand in the order in which they were made. */
  ghost predicate KeepsTies<T(!new)>(history: seq<Registration<T>>, out: seq<Registration<T>>) {
    forall p, q :: 0 <= p < q < |history|
      && history[p].phase == history[q].phase && history[p].priority == history[q].priority
      ==> StandsBefore(out, history[p], history[q])
  }

  lemma SortedIsInOrder<T(!new)>(out: seq<Registration<T>>)
    ensures Sorted(ByRank(), out) <==> InOrder(out)
  {
    if InOrder(out) {
      forall i, j | 0 <= i < j < |out| ensures ByRank()(out[i], out[j]) {
      }
    }
    if Sorted(ByRank(), out) {
      forall i, j | 0 <= i < j < |out|
        ensures (out[j].phase == Phase.Early ==> out[i].phase == Phase.Early)
        ensures (out[i].phase == Phase.Late ==> out[j].phase == Phase.Late)
        ensures (out[i].phase == out[j].phase ==> out[i].priority <= out[j].priority)
      {
        assert ByRank()(out[i], out[j]);
      }
    }
  }

  lemma StableKeepsTies<T(!new)>(history: seq<Registration<T>>, out: seq<Registration<T>>)
    requires IsStableSortOf(ByRank(), history, out)
    ensures KeepsTies(history, out)
  {
    forall p, q | 0 <= p < q < |history|
      && history[p].phase == history[q].phase && history[p].priority == history[q].priority
      ensures StandsBefore(out, history[p], history[q])
    {
      TiesStayInOrder(ByRank(), history, out, p, q);
    }
  }

  /** Hooks with different names and without dependencies run early ones first and late ones last, by priority
      within a phase, and in the order of registration within a priority, however they were registered. */
  lemma HooksRunInOrder<T(!new)>(history: seq<Registration<T>>)
    requires UniqueNames(history) && NoDependencies(history)
    ensures var out := AfterRegistrations(history);
      multiset(out) == multiset(history) && InOrder(out) && KeepsTies(history, out)
  {
    assert forall r :: r in history ==> r.dependencies == [];
    RegistrationsSortHistory(history);
    SortContents(ByRank(), history);
    SortedIsInOrder(AfterRegistrations(history));
    StableKeepsTies(history, AfterRegistrations(history));
  }

  // ---------------------------------------------------------------- with dependencies and repeated names

  /** A hook runs before one that has to run first only if something that need not run after that one has its name
      or depends on it. */
  ghost predicate ExceptionsAreForced<T(!new)>(added: seq<Registration<T>>, g: map<string, Registration<T>>,
                                               out: seq<Registration<T>>) {
    forall a, b :: 0 <= a < b < |out| && RunsFirst(out[b], out[a]) ==>
      exists z :: z in added && !RunsFirst(out[b], z) && Pulls(g, z, out[a])
  }

  /** After any run of registrations, a registration that does not throw leaves dependencies first, and exceptions
      from the order of phases and priorities only where a dependency or a repeated name forces them. */
  lemma HooksRunInOrderUnlessForced<T(!new)>(history: seq<Registration<T>>, r: Registration<T>)
    requires !Cyclic(LastRanked(history + [r]))
    ensures var g, out := LastRanked(history + [r]), AfterRegistrations(history + [r]);
      DependenciesFirst(g, out) && ExceptionsAreForced(AfterRegistrations(history) + [r], g, out)
  {
    var g, out := LastRanked(history + [r]), AfterRegistrations(history + [r]);
    EveryRegistrationSorts(history, r);
    ForcedInFields(AfterRegistrations(history) + [r], g, out);
  }

  lemma ForcedInFields<T(!new)>(added: seq<Registration<T>>, g: map<string, Registration<T>>, out: seq<Registration<T>>)
    requires InversionsAreForced(added, g, out)
    ensures ExceptionsAreForced(added, g, out)
  {
    forall a, b | 0 <= a < b < |out| && RunsFirst(out[b], out[a])
      ensures exists z :: z in added && !RunsFirst(out[b], z) && Pulls(g, z, out[a])
    {
      RunsFirstIsStrict(out[b], out[a]);
      var z :| z in added && RanksBefore(z, out[b]) && Pulls(g, z, out[a]);
      RunsFirstIsStrict(out[b], z);
    }
  }

  /** Registration `p` holds its name: no earlier one of the name has to run after it, and every later one has to
      run before it. */
  ghost predicate Wins<T>(history: seq<Registration<T>>, p: nat)
    requires p < |history|
  {
    && (forall q :: 0 <= q < p && history[q].name == history[p].name ==> !RunsFirst(history[p], history[q]))
    && (forall q :: p < q < |history| && history[q].name == history[p].name ==> RunsFirst(history[q], history[p]))
  }

  lemma {:induction false} LastRankedWins<T(!new)>(history: seq<Registration<T>>, n: string) returns (p: nat)
    requires n in LastRanked(history)
    ensures p < |history| && history[p].name == n && LastRanked(history)[n] == history[p] && Wins(history, p)
  {
    var front, last := history[..|history| - 1], history[|history| - 1];
    var g := LastRanked(front);
    if last.name == n && !(n in g && !RanksBefore(g[n], last)) {
      p := |history| - 1;
      if n in g {
        var m := LastRankedWins(front, n);
        EarlierDoNotRunAfter(front, m, last);
      } else {
        NamesAreHeld(front, n);
      }
    } else {
      p := LastRankedWins(front, n);
      RunsFirstIsStrict(last, front[p]);
    }
  }

  lemma EarlierDoNotRunAfter<T(!new)>(front: seq<Registration<T>>, m: nat, last: Registration<T>)
    requires m < |front| && Wins(front, m) && front[m].name == last.name && RanksBefore(front[m], last)
    ensures forall q :: 0 <= q < |front| && front[q].name == last.name ==> !RunsFirst(last, front[q])
  {
    RunsFirstIsStrict(last, front[m]);
    forall q | 0 <= q < |front| && front[q].name == last.name ensures !RunsFirst(last, front[q]) {
    }
  }

  lemma {:induction false} NamesAreHeld<T(!new)>(history: seq<Registration<T>>, n: string)
    requires n !in LastRanked(history)
    ensures forall q :: 0 <= q < |history| ==> history[q].name != n
  {
    if history != [] {
      NamesAreHeld(history[..|history| - 1], n);
    }
  }

  /** After any run, each name is held by the registration of it that has to run last, the latest among several. */
  lemma HolderRunsLast<T(!new)>(history: seq<Registration<T>>, n: string) returns (p: nat)
    requires n in ByName(AfterRegistrations(history))
    ensures p < |history| && history[p].name == n && Wins(history, p)
    ensures ByName(AfterRegistrations(history))[n] == history[p]
  {
    HistoryDecidesNames(history);
    p := LastRankedWins(history, n);
  }

  /** A registration that throws leaves the old hooks and the new one in the order of phases and priorities, ties
      as they stood. */
  lemma ThrowingLeavesOrder<T(!new)>(history: seq<Registration<T>>, r: Registration<T>)
    requires Cyclic(LastRanked(history + [r]))
    ensures var hooks, out := AfterRegistrations(history), AfterRegistrations(history + [r]);
      multiset(out) == multiset(hooks + [r]) && InOrder(out) && KeepsTies(hooks + [r], out)
  {
    var hooks := AfterRegistrations(history);
    RegisterThrowsExactly(history, r);
    HistoryOfOneMore(history, r);
    RankIsTotalPreorder<T>();
    SortIsStableSort(ByRank(), hooks + [r]);
    SortContents(ByRank(), hooks + [r]);
    SortedIsInOrder(Sort(ByRank(), hooks + [r]));
    StableKeepsTies(hooks + [r], Sort(ByRank(), hooks + [r]));
  }

  // ---------------------------------------------------------------- metadata left out

  /** One call of `register...`. */
  datatype Call<T> = Call(hook: T, hookName: string, metadata: PartialMetadata)

  function Prepared<T>(calls: seq<Call<T>>): (history: seq<Registration<T>>)
    ensures |history| == |calls|
    ensures forall i :: 0 <= i < |calls| ==> history[i] == Prepare(calls[i].hook, calls[i].hookName, calls[i].metadata)
  {
    seq(|calls|, i requires 0 <= i < |calls| => Prepare(calls[i].hook, calls[i].hookName, calls[i].metadata))
  }

  /** What is left out counts as the given name of the hook, priority 50, the normal phase and no dependencies; so
      does an empty name, while a priority of 0 stands. What is given stands. */
  lemma LeftOutCountsAs<T>(hook: T, hookName: string, m: PartialMetadata)
    ensures var r := Prepare(hook, hookName, m);
      && r.hook == hook
      && (if m.name.None? || |m.name.value| == 0 then r.name == hookName else r.name == m.name.value)
      && (if m.priority.None? then r.priority == 50 else r.priority == m.priority.value)
      && (if m.phase.None? then r.phase == Phase.Normal else r.phase == m.phase.value)
      && (if m.dependencies.None? then r.dependencies == [] else r.dependencies == m.dependencies.value)
  {
  }

  /** Any calls on a new registry, thrown exceptions included. */
  method RegisterAll<T>(calls: seq<Call<T>>) returns (registry: HookRegistry<T>)
    ensures fresh(registry) && registry.hooks == AfterRegistrations(Prepared(calls))
  {
    registry := new HookRegistry<T>();
    for i := 0 to |calls|
      invariant registry.hooks == AfterRegistrations(Prepared(calls[..i]))
    {
      PreparedOneMore(calls, i);
      HistoryOfOneMore(Prepared(calls[..i]), Prepare(calls[i].hook, calls[i].hookName, calls[i].metadata));
      var _ := registry.Register(calls[i].hook, calls[i].hookName, calls[i].metadata);
    }
    assert calls[..|calls|] == calls;
  }

  lemma PreparedOneMore<T>(calls: seq<Call<T>>, i: nat)
    requires i < |calls|
    ensures Prepared(calls[..i + 1])
         == Prepared(calls[..i]) + [Prepare(calls[i].hook, calls[i].hookName, calls[i].metadata)]
  {
  }
}
