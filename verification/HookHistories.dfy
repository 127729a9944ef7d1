/** What a run of hook registrations leaves, whatever names repeat, whatever depends on what and whichever
    registrations throw: who wins a name, when a registration throws, and which inversions of the priority
    order remain. */
module HookHistories {
  import opened Prelude
  import opened StableSort
  import opened HookRegistry

  // ---------------------------------------------------------------- who wins a name

  /** `x` takes its name over unless the holder ranks strictly after it. */
  function TakeOver<T>(g: map<string, Registration<T>>, x: Registration<T>): map<string, Registration<T>> {
    if x.name in g && !RanksBefore(g[x.name], x) then g else g[x.name := x]
  }

  /** For every name its last-ranked registration, the latest one among ties. */
  function LastRanked<T>(history: seq<Registration<T>>): map<string, Registration<T>> {
    if history == [] then map[] else TakeOver(LastRanked(history[..|history| - 1]), history[|history| - 1])
  }

  lemma ByNameOfOneMore<T>(regs: seq<Registration<T>>, x: Registration<T>)
    ensures ByName(regs + [x]) == ByName(regs)[x.name := x]
    ensures LastRanked(regs + [x]) == TakeOver(LastRanked(regs), x)
  {
    assert (regs + [x])[..|regs|] == regs;
  }

  lemma {:induction false} HeldByMember<T>(regs: seq<Registration<T>>, n: string)
    requires n in ByName(regs)
    ensures ByName(regs)[n] in regs && ByName(regs)[n].name == n
  {
    var front, last := regs[..|regs| - 1], regs[|regs| - 1];
    if last.name != n {
      HeldByMember(front, n);
    }
  }

  lemma {:induction false} InsertTakesOver<T(!new)>(s: seq<Registration<T>>, x: Registration<T>)
    requires Sorted(ByRank(), s)
    ensures ByName(Insert(ByRank(), s, x)) == TakeOver(ByName(s), x)
  {
    ByNameOfOneMore(s, x);
    if s != [] && RanksBefore(s[|s| - 1], x) {
      LastRanksAfter(s, x);
    } else if s != [] {
      var front, last := s[..|s| - 1], s[|s| - 1];
      InsertTakesOver(front, x);
      ByNameOfOneMore(Insert(ByRank(), front, x), last);
      TakeOversCommute(ByName(front), x, last);
    }
  }

  lemma LastRanksAfter<T(!new)>(s: seq<Registration<T>>, x: Registration<T>)
    requires Sorted(ByRank(), s) && s != [] && RanksBefore(s[|s| - 1], x)
    ensures TakeOver(ByName(s), x) == ByName(s)[x.name := x]
  {
    if x.name in ByName(s) {
      HeldByMember(s, x.name);
      MembersRankBefore(s, ByName(s)[x.name], x);
    }
  }

  lemma MembersRankBefore<T>(s: seq<Registration<T>>, y: Registration<T>, x: Registration<T>)
    requires Sorted(ByRank(), s) && y in s && RanksBefore(s[|s| - 1], x)
    ensures RanksBefore(y, x)
  {
    var i :| 0 <= i < |s| && s[i] == y;
    assert i < |s| - 1 ==> ByRank()(s[i], s[|s| - 1]);
  }

  lemma TakeOversCommute<T>(g: map<string, Registration<T>>, x: Registration<T>, last: Registration<T>)
    requires !RanksBefore(last, x)
    ensures TakeOver(g, x)[last.name := last] == TakeOver(g[last.name := last], x)
  {
  }

  /** Sorting by rank leaves every name to its last-ranked registration. */
  lemma {:induction false} SortingKeepsLastRanked<T(!new)>(regs: seq<Registration<T>>)
    ensures ByName(Sort(ByRank(), regs)) == LastRanked(regs)
  {
    if regs != [] {
      var front := regs[..|regs| - 1];
      SortingKeepsLastRanked(front);
      RankIsTotalPreorder<T>();
      SortIsStableSort(ByRank(), front);
      InsertTakesOver(Sort(ByRank(), front), regs[|regs| - 1]);
    }
  }

  lemma {:induction false} UniqueNamesHoldThemselves<T>(regs: seq<Registration<T>>)
    requires UniqueNames(regs)
    ensures LastRanked(regs) == ByName(regs)
  {
    if regs != [] {
      UniqueNamesHoldThemselves(regs[..|regs| - 1]);
    }
  }

  lemma {:induction false} UniqueNamesByName<T>(regs: seq<Registration<T>>, g: map<string, Registration<T>>)
    requires UniqueNames(regs) && forall x :: x in regs <==> x.name in g && x == g[x.name]
    requires Keyed(g)
    ensures ByName(regs) == g
  {
    forall n | n in g ensures n in ByName(regs) && ByName(regs)[n] == g[n] {
      assert g[n] in regs;
      var i :| 0 <= i < |regs| && regs[i] == g[n];
      ByNameIsLast(regs, i);
    }
    forall n | n in ByName(regs) ensures n in g {
      HeldByMember(regs, n);
    }
  }

  /** The list that a successful sort leaves: every name once, held as before. */
  lemma SortedHooksByName<T(!new)>(regs: seq<Registration<T>>)
    requires SortHooks(regs).Some?
    ensures var out := SortHooks(regs).value;
            UniqueNames(out) && ByName(out) == LastRanked(regs) && DependenciesFirst(LastRanked(regs), out)
  {
    var ranked := Sort(ByRank(), regs);
    SortingKeepsLastRanked(regs);
    RaisesExactlyOnCycles(ranked);
    SortsByDependency(ranked);
    ByNameIsKeyed(ranked);
    UniqueNamesByName(SortHooks(regs).value, ByName(ranked));
  }

  lemma RegisteredHolds<T(!new)>(hooks: seq<Registration<T>>, r: Registration<T>)
    ensures ByName(Registered(hooks, r)) == LastRanked(hooks + [r])
    ensures LastRanked(Registered(hooks, r)) == LastRanked(hooks + [r])
  {
    var added := hooks + [r];
    SortingKeepsLastRanked(added);
    if SortHooks(added).Some? {
      SortedHooksByName(added);
      UniqueNamesHoldThemselves(SortHooks(added).value);
    } else {
      var ranked := Sort(ByRank(), added);
      RankIsTotalPreorder<T>();
      SortIsStableSort(ByRank(), added);
      SortedIsFixed(ByRank(), ranked);
      SortingKeepsLastRanked(ranked);
    }
  }

  /** After every run of registrations, failed ones included, each name is held by the last-ranked of all
      its registrations, no matter how often the list has been sorted in between. */
  lemma {:induction false} HistoryDecidesNames<T(!new)>(history: seq<Registration<T>>)
    ensures ByName(AfterRegistrations(history)) == LastRanked(history)
    ensures LastRanked(AfterRegistrations(history)) == LastRanked(history)
  {
    if history != [] {
      var front, r := history[..|history| - 1], history[|history| - 1];
      HistoryDecidesNames(front);
      RegisteredHolds(AfterRegistrations(front), r);
      ByNameOfOneMore(AfterRegistrations(front), r);
    }
  }

  lemma HistoryOfOneMore<T>(history: seq<Registration<T>>, r: Registration<T>)
    ensures AfterRegistrations(history + [r]) == Registered(AfterRegistrations(history), r)
  {
    assert (history + [r])[..|history|] == history;
  }

  /** A registration throws if and only if the last-ranked registrations of all names so far contain a
      dependency cycle, whatever threw before. */
  lemma RegisterThrowsExactly<T(!new)>(history: seq<Registration<T>>, r: Registration<T>)
    ensures SortHooks(AfterRegistrations(history) + [r]) == None <==> Cyclic(LastRanked(history + [r]))
  {
    var added := AfterRegistrations(history) + [r];
    HistoryDecidesNames(history);
    ByNameOfOneMore(history, r);
    ByNameOfOneMore(AfterRegistrations(history), r);
    SortingKeepsLastRanked(added);
    RaisesExactlyOnCycles(Sort(ByRank(), added));
  }

  // ---------------------------------------------------------------- dependencies and inversions

  /** `x` goes by the name of `y` or depends on it. */
  ghost predicate Pulls<T>(g: map<string, Registration<T>>, x: Registration<T>, y: Registration<T>) {
    x.name == y.name || DependsOn(g, x.name, y.name)
  }

  /** If `out` puts `out[a]` before `out[b]`, which ranks strictly earlier, then some registration that ranks
      no later than `out[b]` pulls `out[a]` forward. */
  ghost predicate InversionsAreForced<T(!new)>(regs: seq<Registration<T>>, g: map<string, Registration<T>>,
                                               out: seq<Registration<T>>) {
    forall a, b :: 0 <= a < b < |out| && !RanksBefore(out[a], out[b]) ==>
      exists z :: z in regs && RanksBefore(z, out[b]) && Pulls(g, z, out[a])
  }

  /** The first place of the ranking at which a registration of this name stands. */
  lemma FirstOfName<T>(ranked: seq<Registration<T>>, n: string) returns (j: nat)
    requires n in ByName(ranked)
    ensures j < |ranked| && ranked[j].name == n && forall i :: 0 <= i < j ==> ranked[i].name != n
  {
    j := 0;
    while ranked[j].name != n
      invariant j < |ranked| && forall i :: 0 <= i < j ==> ranked[i].name != n
      decreases |ranked| - j
    {
      j := j + 1;
      if j == |ranked| {
        HeldByMember(ranked, n);
        assert false;
      }
    }
  }

  /** What stands before the registration of a name in the output is reached from the ranking up to the first
      registration of that name. */
  lemma ReachedByThen<T>(ranked: seq<Registration<T>>, a: nat, b: nat, j: nat) returns (k: nat)
    requires TopologicalSort(ranked).Some? && a < b < |TopologicalSort(ranked).value|
    requires j < |ranked| && ranked[j].name == TopologicalSort(ranked).value[b].name
    ensures k <= j && Pulls(ByName(ranked), ranked[k], TopologicalSort(ranked).value[a])
  {
    var g, out := ByName(ranked), TopologicalSort(ranked).value;
    var t := PrefixOfOutput(ranked, j);
    RaisesExactlyOnCycles(ranked);
    SortsByDependency(ranked);
    var b' :| 0 <= b' < |t.sorted| && t.sorted[b'].name == ranked[j].name;
    assert out[b'] == t.sorted[b'];
    assert b' == b;
    assert t.sorted[a] == out[a];
    var names := NamesOf(ranked)[..j + 1];
    k :| 0 <= k < |names| && (out[a].name == names[k] || DependsOn(g, names[k], out[a].name));
  }

  lemma PulledBy<T(!new)>(ranked: seq<Registration<T>>, a: nat, b: nat) returns (z: Registration<T>)
    requires Sorted(ByRank(), ranked) && TopologicalSort(ranked).Some? && a < b < |TopologicalSort(ranked).value|
    ensures z in ranked && RanksBefore(z, TopologicalSort(ranked).value[b])
    ensures Pulls(ByName(ranked), z, TopologicalSort(ranked).value[a])
  {
    var j := PlaceInRanking(ranked, b);
    var k := ReachedByThen(ranked, a, b, j);
    RanksNoLater(ranked, k, j);
    z := ranked[k];
  }

  lemma RanksNoLater<T>(ranked: seq<Registration<T>>, k: nat, j: nat)
    requires Sorted(ByRank(), ranked) && k <= j < |ranked|
    ensures RanksBefore(ranked[k], ranked[j])
  {
    assert k < j ==> ByRank()(ranked[k], ranked[j]);
  }

  lemma PlaceInRanking<T(!new)>(ranked: seq<Registration<T>>, b: nat) returns (j: nat)
    requires TopologicalSort(ranked).Some? && b < |TopologicalSort(ranked).value|
    ensures j < |ranked| && ranked[j] == TopologicalSort(ranked).value[b]
  {
    RaisesExactlyOnCycles(ranked);
    SortsByDependency(ranked);
    var out := TopologicalSort(ranked).value;
    var x := out[b];
    assert x in out;
    HeldByMember(ranked, x.name);
    j :| 0 <= j < |ranked| && ranked[j] == x;
  }

  /** `SortHooks` disturbs the order of phases and priorities only where it has to. */
  lemma SortForcesInversions<T(!new)>(regs: seq<Registration<T>>)
    requires SortHooks(regs).Some?
    ensures InversionsAreForced(regs, LastRanked(regs), SortHooks(regs).value)
  {
    var ranked, out := Sort(ByRank(), regs), SortHooks(regs).value;
    SortingKeepsLastRanked(regs);
    RankIsTotalPreorder<T>();
    SortIsStableSort(ByRank(), regs);
    SortContents(ByRank(), regs);
    forall a, b | 0 <= a < b < |out| && !RanksBefore(out[a], out[b])
      ensures exists z :: z in regs && RanksBefore(z, out[b]) && Pulls(LastRanked(regs), z, out[a])
    {
      var z := PulledBy(ranked, a, b);
      assert z in multiset(ranked);
      assert z in regs;
    }
  }

  /** After every registration that does not throw, whatever came before it, every name stands once, held by
      its last-ranked registration, dependencies stand first, and inversions of the rank order are forced. */
  lemma EveryRegistrationSorts<T(!new)>(history: seq<Registration<T>>, r: Registration<T>)
    requires !Cyclic(LastRanked(history + [r]))
    ensures var g, out := LastRanked(history + [r]), AfterRegistrations(history + [r]);
      && UniqueNames(out) && ByName(out) == g && DependenciesFirst(g, out)
      && InversionsAreForced(AfterRegistrations(history) + [r], g, out)
  {
    var added := AfterRegistrations(history) + [r];
    RegisterThrowsExactly(history, r);
    HistoryDecidesNames(history);
    ByNameOfOneMore(history, r);
    ByNameOfOneMore(AfterRegistrations(history), r);
    HistoryOfOneMore(history, r);
    SortedHooksByName(added);
    SortForcesInversions(added);
  }

  // ---------------------------------------------------------------- repeated names without dependencies

  ghost predicate NoDependencies<T>(regs: seq<Registration<T>>) {
    forall i :: 0 <= i < |regs| ==> regs[i].dependencies == []
  }

  /** The first registration of some name comes before every one of the name at `j`, but the registration
      that holds it ranks strictly after the one that holds the name at `j`. */
  ghost predicate NestedAt<T>(ranked: seq<Registration<T>>, i: nat, j: nat)
    requires i < j < |ranked|
  {
    && (forall k :: 0 <= k <= i ==> ranked[k].name != ranked[j].name)
    && !RanksBefore(ByName(ranked)[ranked[i].name], ByName(ranked)[ranked[j].name])
  }

  ghost predicate Nested<T>(ranked: seq<Registration<T>>) {
    exists i: nat, j: nat :: i < j < |ranked| && NestedAt(ranked, i, j)
  }

  lemma NothingDepends<T>(regs: seq<Registration<T>>, a: string, b: string)
    requires NoDependencies(regs)
    ensures !DependsOn(ByName(regs), a, b)
  {
    if DependsOn(ByName(regs), a, b) {
      var p :| Chain(ByName(regs), p) && p[0] == a && p[|p| - 1] == b;
      assert p[1] in Deps(ByName(regs), a);
      HeldByMember(regs, a);
      assert false;
    }
  }

  lemma NothingCyclic<T>(regs: seq<Registration<T>>)
    requires NoDependencies(regs)
    ensures TopologicalSort(regs).Some?
  {
    forall c ensures !DependsOn(ByName(regs), c, c) {
      NothingDepends(regs, c, c);
    }
    RaisesExactlyOnCycles(regs);
  }

  lemma InversionIsNested<T(!new)>(ranked: seq<Registration<T>>, a: nat, b: nat)
    requires NoDependencies(ranked) && TopologicalSort(ranked).Some? && a < b < |TopologicalSort(ranked).value|
    requires !RanksBefore(TopologicalSort(ranked).value[a], TopologicalSort(ranked).value[b])
    ensures Nested(ranked)
  {
    var out := TopologicalSort(ranked).value;
    HeldInOutput(ranked, a);
    HeldInOutput(ranked, b);
    var j := FirstOfName(ranked, out[b].name);
    var k := ReachedByThen(ranked, a, b, j);
    NothingDepends(ranked, ranked[k].name, out[a].name);
    assert k != j;
    assert NestedAt(ranked, k, j);
  }

  lemma HeldInOutput<T(!new)>(ranked: seq<Registration<T>>, a: nat)
    requires TopologicalSort(ranked).Some? && a < |TopologicalSort(ranked).value|
    ensures var x := TopologicalSort(ranked).value[a];
            x.name in ByName(ranked) && ByName(ranked)[x.name] == x
  {
    RaisesExactlyOnCycles(ranked);
    SortsByDependency(ranked);
    var out := TopologicalSort(ranked).value;
    assert out[a] in out;
  }

  lemma PlaceInOutput<T(!new)>(ranked: seq<Registration<T>>, n: string) returns (b: nat)
    requires TopologicalSort(ranked).Some? && n in ByName(ranked)
    ensures b < |TopologicalSort(ranked).value| && TopologicalSort(ranked).value[b] == ByName(ranked)[n]
  {
    RaisesExactlyOnCycles(ranked);
    SortsByDependency(ranked);
    HeldByMember(ranked, n);
    var out := TopologicalSort(ranked).value;
    assert ByName(ranked)[n] in out;
    b :| 0 <= b < |out| && out[b] == ByName(ranked)[n];
  }

  lemma NestedIsInverted<T(!new)>(ranked: seq<Registration<T>>, i: nat, j: nat) returns (a: nat, b: nat)
    requires NoDependencies(ranked) && TopologicalSort(ranked).Some? && i < j < |ranked| && NestedAt(ranked, i, j)
    ensures a < b < |TopologicalSort(ranked).value|
    ensures !RanksBefore(TopologicalSort(ranked).value[a], TopologicalSort(ranked).value[b])
  {
    var g, out := ByName(ranked), TopologicalSort(ranked).value;
    b := PlaceInOutput(ranked, ranked[j].name);
    HeldByMember(ranked, ranked[j].name);
    var t := PrefixOfOutput(ranked, i);
    a :| 0 <= a < |t.sorted| && t.sorted[a].name == ranked[i].name;
    assert t.sorted[a] == out[a];
    HeldInOutput(ranked, a);
    if b < |t.sorted| {
      assert t.sorted[b] == out[b];
      NotReached(ranked, i, j);
      assert false;
    }
  }

  lemma NotReached<T>(ranked: seq<Registration<T>>, i: nat, j: nat)
    requires NoDependencies(ranked) && i < j < |ranked|
    requires forall k :: 0 <= k <= i ==> ranked[k].name != ranked[j].name
    ensures !ReachedFrom(ByName(ranked), NamesOf(ranked)[..i + 1], ranked[j].name)
  {
    var names := NamesOf(ranked)[..i + 1];
    forall k | 0 <= k < |names| ensures !(ranked[j].name == names[k] || DependsOn(ByName(ranked), names[k], ranked[j].name)) {
      assert names[k] == ranked[k].name;
      NothingDepends(ranked, names[k], ranked[j].name);
    }
  }

  /** Without dependencies the result is in priority order if and only if no name's registrations are nested
      in another's. */
  lemma PriorityOrderExactly<T(!new)>(regs: seq<Registration<T>>)
    requires NoDependencies(regs)
    ensures SortHooks(regs).Some?
    ensures Sorted(ByRank(), SortHooks(regs).value) <==> !Nested(Sort(ByRank(), regs))
  {
    var ranked := Sort(ByRank(), regs);
    SortContents(ByRank(), regs);
    forall i | 0 <= i < |ranked| ensures ranked[i].dependencies == [] {
      assert ranked[i] in multiset(ranked);
      assert ranked[i] in regs;
    }
    NothingCyclic(ranked);
    OrderedUnlessNested(ranked);
  }

  lemma OrderedUnlessNested<T(!new)>(ranked: seq<Registration<T>>)
    requires NoDependencies(ranked) && TopologicalSort(ranked).Some?
    ensures Sorted(ByRank(), TopologicalSort(ranked).value) <==> !Nested(ranked)
  {
    var out := TopologicalSort(ranked).value;
    if Nested(ranked) {
      var i: nat, j: nat :| i < j < |ranked| && NestedAt(ranked, i, j);
      var a, b := NestedIsInverted(ranked, i, j);
      assert !ByRank()(out[a], out[b]);
    } else {
      forall a, b | 0 <= a < b < |out| ensures ByRank()(out[a], out[b]) {
        if !RanksBefore(out[a], out[b]) {
          InversionIsNested(ranked, a, b);
        }
      }
    }
  }

  /** Every hook of the list is one of the history. */
  lemma {:induction false} HooksComeFromHistory<T(!new)>(history: seq<Registration<T>>)
    ensures forall x :: x in AfterRegistrations(history) ==> x in history
  {
    if history != [] {
      var front, r := history[..|history| - 1], history[|history| - 1];
      HooksComeFromHistory(front);
      RegisteredComesFrom(AfterRegistrations(front), r);
    }
  }

  lemma RegisteredComesFrom<T(!new)>(hooks: seq<Registration<T>>, r: Registration<T>)
    ensures forall x :: x in Registered(hooks, r) ==> x in hooks || x == r
  {
    var added := hooks + [r];
    var ranked := Sort(ByRank(), added);
    SortContents(ByRank(), added);
    forall x | x in Registered(hooks, r) ensures x in hooks || x == r {
      if SortHooks(added).Some? {
        var a :| 0 <= a < |SortHooks(added).value| && SortHooks(added).value[a] == x;
        HeldInOutput(ranked, a);
        HeldByMember(ranked, x.name);
      }
      assert x in multiset(ranked);
      assert x in added;
    }
  }

  /** Without dependencies, names may repeat over the history: a registration leaves the list in priority order
      if and only if it nests no name's registrations in another's. */
  lemma HistoryIsOrderedExactly<T(!new)>(history: seq<Registration<T>>, r: Registration<T>)
    requires NoDependencies(history + [r])
    ensures Sorted(ByRank(), AfterRegistrations(history + [r]))
       <==> !Nested(Sort(ByRank(), AfterRegistrations(history) + [r]))
  {
    NoneDependsAfter(history, r);
    HistoryOfOneMore(history, r);
    PriorityOrderExactly(AfterRegistrations(history) + [r]);
  }

  lemma HistoryLeavesUniqueNames<T(!new)>(history: seq<Registration<T>>)
    requires NoDependencies(history)
    ensures UniqueNames(AfterRegistrations(history))
  {
    if history != [] {
      var front, r := history[..|history| - 1], history[|history| - 1];
      assert history == front + [r];
      NoneDependsAfter(front, r);
      PriorityOrderExactly(AfterRegistrations(front) + [r]);
      SortedHooksByName(AfterRegistrations(front) + [r]);
    }
  }

  /** A registration under a new name puts the list back into priority order, ties as they stood. */
  lemma NewNameRestoresOrder<T(!new)>(history: seq<Registration<T>>, r: Registration<T>)
    requires NoDependencies(history + [r]) && forall x :: x in history ==> x.name != r.name
    ensures IsStableSortOf(ByRank(), AfterRegistrations(history) + [r], AfterRegistrations(history + [r]))
  {
    NewNameIsUnique(history, r);
    NoneDependsAfter(history, r);
    WithoutDependencies(AfterRegistrations(history) + [r]);
    HistoryOfOneMore(history, r);
  }

  lemma NewNameIsUnique<T(!new)>(history: seq<Registration<T>>, r: Registration<T>)
    requires NoDependencies(history + [r]) && forall x :: x in history ==> x.name != r.name
    ensures UniqueNames(AfterRegistrations(history) + [r])
  {
    assert forall i :: 0 <= i < |history| ==> (history + [r])[i] == history[i];
    HistoryLeavesUniqueNames(history);
    HooksComeFromHistory(history);
    var hooks := AfterRegistrations(history);
    assert forall i :: 0 <= i < |hooks| ==> hooks[i] in hooks;
  }

  lemma NoneDependsAfter<T(!new)>(history: seq<Registration<T>>, r: Registration<T>)
    requires NoDependencies(history + [r])
    ensures NoDependencies(AfterRegistrations(history) + [r])
    ensures forall x :: x in AfterRegistrations(history) + [r] ==> x.dependencies == []
  {
    HooksComeFromHistory(history);
    forall x | x in AfterRegistrations(history) + [r] ensures x.dependencies == [] {
      assert x in AfterRegistrations(history) || x == r;
      assert x in history + [r];
    }
  }

  // ---------------------------------------------------------------- instances

  /** A second registration of a name that comes before another's, but now ranks after it, keeps the early
      place: the list is not in priority order. */
  lemma RepeatedNameBreaksOrder<T(!new)>(x: Registration<T>, y: Registration<T>, again: Registration<T>)
    requires x.name == again.name != y.name && x.dependencies == y.dependencies == again.dependencies == []
    requires RanksBefore(x, y) && !RanksBefore(again, y)
    ensures !Sorted(ByRank(), AfterRegistrations([x, y, again]))
  {
    TwoInOrder(x, y);
    RepeatIsNested(x, y, again);
    RanksInTurn(x, y, again);
    ListOfThree(x, y, again);
    NestedIsUnordered([x, y], again, [x, y, again]);
  }

  lemma ListOfThree<T>(x: Registration<T>, y: Registration<T>, z: Registration<T>)
    requires x.dependencies == y.dependencies == z.dependencies == []
    ensures [x, y] + [z] == [x, y, z] && NoDependencies([x, y, z])
  {
  }

  lemma RanksInTurn<T(!new)>(x: Registration<T>, y: Registration<T>, z: Registration<T>)
    requires RanksBefore(x, y) && !RanksBefore(z, y)
    ensures Sort(ByRank(), [x, y, z]) == [x, y, z]
  {
    ThreeInOrder(x, y, z);
  }

  lemma NestedIsUnordered<T(!new)>(history: seq<Registration<T>>, r: Registration<T>, ranked: seq<Registration<T>>)
    requires AfterRegistrations(history) == history && history + [r] == ranked && Sort(ByRank(), ranked) == ranked
    requires NoDependencies(ranked) && Nested(ranked)
    ensures !Sorted(ByRank(), AfterRegistrations(ranked))
  {
    HistoryIsOrderedExactly(history, r);
  }

  lemma ThreeInOrder<T(!new)>(x: Registration<T>, y: Registration<T>, z: Registration<T>)
    requires RanksBefore(x, y) && RanksBefore(y, z)
    ensures Sort(ByRank(), [x, y, z]) == [x, y, z]
  {
    RankIsTotalPreorder<T>();
    SortedIsFixed(ByRank(), [x, y, z]);
  }

  lemma TwoInOrder<T(!new)>(x: Registration<T>, y: Registration<T>)
    requires x.name != y.name && RanksBefore(x, y) && x.dependencies == [] && y.dependencies == []
    ensures AfterRegistrations([x, y]) == [x, y]
  {
    RankIsTotalPreorder<T>();
    RegistrationsSortHistory([x, y]);
    SortedIsFixed(ByRank(), [x, y]);
  }

  lemma RepeatIsNested<T(!new)>(x: Registration<T>, y: Registration<T>, again: Registration<T>)
    requires x.name == again.name != y.name && !RanksBefore(again, y)
    ensures Nested([x, y, again])
  {
    var ranked := [x, y, again];
    ByNameIsLast(ranked, 1);
    ByNameIsLast(ranked, 2);
    assert NestedAt(ranked, 0, 1);
  }

  // ---------------------------------------------------------------- sorting in steps and sorting at once

  /** `b` needs `c` and `d`, in this order; the three rank the same. */
  ghost predicate TiedAndNeeding<T>(b: Registration<T>, c: Registration<T>, d: Registration<T>) {
    && b.name != c.name && c.name != d.name && b.name != d.name
    && b.dependencies == [c.name, d.name] && c.dependencies == d.dependencies == []
    && b.phase == c.phase == d.phase && b.priority == c.priority == d.priority
  }

  /** A visit to a name without dependencies. */
  function Touch<T>(g: map<string, Registration<T>>, n: string, s: Search<T>): Search<T> {
    if n in s.visited then s else Finish(g, n, s)
  }

  lemma VisitLeaf<T>(g: map<string, Registration<T>>, n: string, visiting: set<string>, s: Search<T>)
    requires n in Names(g) && Deps(g, n) == [] && n !in visiting
    ensures Dfs(g, n, visiting, s) == Some(Touch(g, n, s))
  {
    assert DfsAll(g, [], visiting + {n}, s) == Some(s);
  }

  lemma VisitOneByOne<T>(g: map<string, Registration<T>>, n: string, rest: seq<string>, visiting: set<string>, s: Search<T>)
    requires n in Names(g) && forall m :: m in rest ==> m in Names(g)
    ensures DfsAll(g, [n] + rest, visiting, s)
         == match Dfs(g, n, visiting, s) case None => None case Some(t) => DfsAll(g, rest, visiting, t)
  {
    assert ([n] + rest)[0] == n && ([n] + rest)[1..] == rest;
  }

  lemma VisitNeeding<T>(g: map<string, Registration<T>>, b: Registration<T>, c: string, d: string, s: Search<T>)
    requires b.name in g && g[b.name] == b && b.dependencies == [c, d] && b.name !in s.visited
    requires b.name != c && b.name != d && Deps(g, c) == [] && Deps(g, d) == []
    ensures Dfs(g, b.name, {}, s) == Some(Finish(g, b.name, Touch(g, d, Touch(g, c, s))))
  {
    assert Deps(g, b.name) == [c] + ([d] + []);
    VisitOneByOne(g, c, [d] + [], {} + {b.name}, s);
    VisitLeaf(g, c, {} + {b.name}, s);
    VisitOneByOne(g, d, [], {} + {b.name}, Touch(g, c, s));
    VisitLeaf(g, d, {} + {b.name}, Touch(g, c, s));
  }

  ghost predicate Holds<T>(g: map<string, Registration<T>>, x: Registration<T>) {
    x.name in g && g[x.name] == x
  }

  lemma HoldsThree<T>(x: Registration<T>, y: Registration<T>, z: Registration<T>)
    requires x.name != y.name && x.name != z.name && y.name != z.name
    ensures var g := ByName([x, y, z]); Holds(g, x) && Holds(g, y) && Holds(g, z)
    ensures NamesOf([x, y, z]) == [x.name] + ([y.name] + [z.name])
  {
    ByNameIsLast([x, y, z], 0);
    ByNameIsLast([x, y, z], 1);
    ByNameIsLast([x, y, z], 2);
  }

  lemma SortsAtOnce<T(!new)>(b: Registration<T>, c: Registration<T>, d: Registration<T>)
    requires TiedAndNeeding(b, c, d)
    ensures TopologicalSort([b, d, c]) == Some([c, d, b])
  {
    HoldsThree(b, d, c);
    SearchesNeedingFirst(ByName([b, d, c]), b, c, d);
  }

  lemma SearchesNeedingFirst<T>(g: map<string, Registration<T>>, b: Registration<T>, c: Registration<T>, d: Registration<T>)
    requires TiedAndNeeding(b, c, d) && Holds(g, b) && Holds(g, c) && Holds(g, d)
    ensures var r := DfsAll(g, [b.name] + ([d.name] + [c.name]), {}, Search({}, [])); r.Some? && r.value.sorted == [c, d, b]
  {
    var start: Search<T> := Search({}, []);
    VisitOneByOne(g, b.name, [d.name] + [c.name], {}, start);
    VisitNeeding(g, b, c.name, d.name, start);
    var t := Finish(g, b.name, Touch(g, d.name, Touch(g, c.name, start)));
    assert t.sorted == [c, d, b];
    FinishedDependencies(g, [d.name] + [c.name], {}, t);
  }

  lemma SortsSecond<T(!new)>(b: Registration<T>, c: Registration<T>, d: Registration<T>)
    requires TiedAndNeeding(b, c, d)
    ensures TopologicalSort([b, d]) == Some([d, b])
  {
    var g := ByName([b, d]);
    ByNameIsLast([b, d], 0);
    ByNameIsLast([b, d], 1);
    var start: Search<T> := Search({}, []);
    assert NamesOf([b, d]) == [b.name] + [d.name];
    VisitOneByOne(g, b.name, [d.name], {}, start);
    VisitNeeding(g, b, c.name, d.name, start);
    var t := Finish(g, b.name, Touch(g, d.name, Touch(g, c.name, start)));
    assert t.sorted == [d, b];
    FinishedDependencies(g, [d.name], {}, t);
  }

  lemma SortsThird<T(!new)>(b: Registration<T>, c: Registration<T>, d: Registration<T>)
    requires TiedAndNeeding(b, c, d)
    ensures TopologicalSort([d, b, c]) == Some([d, c, b])
  {
    HoldsThree(d, b, c);
    SearchesNeedingSecond(ByName([d, b, c]), b, c, d);
  }

  lemma SearchesNeedingSecond<T>(g: map<string, Registration<T>>, b: Registration<T>, c: Registration<T>, d: Registration<T>)
    requires TiedAndNeeding(b, c, d) && Holds(g, b) && Holds(g, c) && Holds(g, d)
    ensures var r := DfsAll(g, [d.name] + ([b.name] + [c.name]), {}, Search({}, [])); r.Some? && r.value.sorted == [d, c, b]
  {
    var start: Search<T> := Search({}, []);
    VisitOneByOne(g, d.name, [b.name] + [c.name], {}, start);
    VisitLeaf(g, d.name, {}, start);
    var s := Touch(g, d.name, start);
    VisitOneByOne(g, b.name, [c.name], {}, s);
    VisitNeeding(g, b, c.name, d.name, s);
    var t := Finish(g, b.name, Touch(g, d.name, Touch(g, c.name, s)));
    assert t.sorted == [d, c, b];
    FinishedDependencies(g, [c.name], {}, t);
  }

  /** The dependencies of `b` come in the order in which it names them if all are sorted at once, and in the
      order of their registrations if each registration sorts anew. So with dependencies sorting the history
      once and sorting it in steps are different. */
  lemma StepsDifferFromAtOnce<T(!new)>(b: Registration<T>, c: Registration<T>, d: Registration<T>)
    requires TiedAndNeeding(b, c, d)
    ensures AfterRegistrations([b, d, c]) == [d, c, b]
    ensures SortHooks([b, d, c]) == Some([c, d, b])
  {
    SortsInSteps(b, c, d);
    SortsAtOnce(b, c, d);
    ThreeInOrder(b, d, c);
  }

  lemma SortsInSteps<T(!new)>(b: Registration<T>, c: Registration<T>, d: Registration<T>)
    requires TiedAndNeeding(b, c, d)
    ensures AfterRegistrations([b, d, c]) == [d, c, b]
  {
    AfterTwo(b, c, d);
    ThreeInOrder(d, b, c);
    SortsThird(b, c, d);
    assert [b, d] + [c] == [b, d, c] && [d, b] + [c] == [d, b, c];
    RegistersTo([b, d], c, [d, b], [d, b, c], [d, c, b]);
  }

  lemma RegistersTo<T>(history: seq<Registration<T>>, r: Registration<T>,
                       hooks: seq<Registration<T>>, ranked: seq<Registration<T>>, out: seq<Registration<T>>)
    requires AfterRegistrations(history) == hooks && Sort(ByRank(), hooks + [r]) == ranked
    requires TopologicalSort(ranked) == Some(out)
    ensures AfterRegistrations(history + [r]) == out
  {
    HistoryOfOneMore(history, r);
  }

  lemma AfterTwo<T(!new)>(b: Registration<T>, c: Registration<T>, d: Registration<T>)
    requires TiedAndNeeding(b, c, d)
    ensures AfterRegistrations([b, d]) == [d, b]
  {
    AfterOne(b);
    PairInOrder(b, d);
    SortsSecond(b, c, d);
    assert [b] + [d] == [b, d];
    RegistersTo([b], d, [b], [b, d], [d, b]);
  }

  lemma AfterOne<T(!new)>(b: Registration<T>)
    requires b.name !in b.dependencies
    ensures AfterRegistrations([b]) == [b]
  {
    AloneInOrder(b);
    HistoryOfOneMore([], b);
    assert [] + [b] == [b];
  }

  lemma PairInOrder<T(!new)>(x: Registration<T>, y: Registration<T>)
    requires RanksBefore(x, y)
    ensures Sort(ByRank(), [x, y]) == [x, y]
  {
    RankIsTotalPreorder<T>();
    SortedIsFixed(ByRank(), [x, y]);
  }

  lemma AloneInOrder<T(!new)>(x: Registration<T>)
    requires x.name !in x.dependencies
    ensures SortHooks([x]) == Some([x])
  {
    RankIsTotalPreorder<T>();
    SortedIsFixed(ByRank(), [x]);
    OrderedListIsKept([x]);
  }
}
