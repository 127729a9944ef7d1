/** Hook ordering of src/hooks/registry.ts: a stable sort by phase and priority, refined by a
    depth-first topological sort over hook dependencies. */
module HookRegistry {
  import opened Prelude
  import opened StableSort

  datatype Phase = Early | Normal | Late

  datatype Registration<T> = Registration(hook: T, name: string, priority: int, phase: Phase, dependencies: seq<string>)

  /** The optional fields that a caller of `register...` may leave out. */
  datatype PartialMetadata = PartialMetadata(
    name: Option<string>, priority: Option<int>, phase: Option<Phase>, dependencies: Option<seq<string>>)

  /** `prepareMetadata`: an empty name counts as missing, a zero priority does not. */
  function Prepare<T>(hook: T, hookName: string, m: PartialMetadata): Registration<T> {
    Registration(hook,
                 if m.name.Some? && m.name.value != "" then m.name.value else hookName,
                 if m.priority.Some? then m.priority.value else 50,
                 if m.phase.Some? then m.phase.value else Phase.Normal,
                 if m.dependencies.Some? then m.dependencies.value else [])
  }

  // ---------------------------------------------------------------- priority order

  function PhaseOrder(phase: Phase): int {
    match phase
    case Early => 0
    case Normal => 1
    case Late => 2
  }

  predicate RanksBefore<T>(a: Registration<T>, b: Registration<T>) {
    PhaseOrder(a.phase) < PhaseOrder(b.phase) ||
    (PhaseOrder(a.phase) == PhaseOrder(b.phase) && a.priority <= b.priority)
  }

  function ByRank<T>(): (Registration<T>, Registration<T>) -> bool {
    (a, b) => RanksBefore(a, b)
  }

  lemma RankIsTotalPreorder<T(!new)>()
    ensures TotalPreorder(ByRank<T>())
  {
  }

  // ---------------------------------------------------------------- the dependency graph

  /** `new Map(registrations.map(...))`: a later registration replaces an earlier one of the same name. */
  function ByName<T>(regs: seq<Registration<T>>): (m: map<string, Registration<T>>)
    ensures forall n :: n in m <==> exists i :: 0 <= i < |regs| && regs[i].name == n
  {
    if regs == [] then map[] else ByName(regs[..|regs| - 1])[regs[|regs| - 1].name := regs[|regs| - 1]]
  }

  /** The map holds the last-ranked registration of every name. */
  lemma {:induction false} ByNameIsLast<T>(regs: seq<Registration<T>>, i: nat)
    requires i < |regs| && forall j :: i < j < |regs| ==> regs[j].name != regs[i].name
    ensures ByName(regs)[regs[i].name] == regs[i]
  {
    if i < |regs| - 1 {
      var front := regs[..|regs| - 1];
      ByNameIsLast(front, i);
      assert front[i] == regs[i];
    }
  }

  /** The names that `name` depends on directly; unregistered names have none. */
  function Deps<T>(g: map<string, Registration<T>>, name: string): seq<string> {
    if name in g then g[name].dependencies else []
  }

  /** A non-empty chain of dependencies. */
  ghost predicate Chain<T>(g: map<string, Registration<T>>, p: seq<string>) {
    |p| >= 2 && forall i :: 0 <= i < |p| - 1 ==> p[i + 1] in Deps(g, p[i])
  }

  /** `a` depends on `b`, directly or through others. */
  ghost predicate DependsOn<T>(g: map<string, Registration<T>>, a: string, b: string) {
    exists p :: Chain(g, p) && p[0] == a && p[|p| - 1] == b
  }

  lemma DirectDependency<T>(g: map<string, Registration<T>>, a: string, b: string)
    requires b in Deps(g, a)
    ensures DependsOn(g, a, b)
  {
    assert Chain(g, [a, b]);
  }

  lemma DependsOnIsTransitive<T>(g: map<string, Registration<T>>, a: string, b: string, c: string)
    requires DependsOn(g, a, b) && DependsOn(g, b, c)
    ensures DependsOn(g, a, c)
  {
    var p :| Chain(g, p) && p[0] == a && p[|p| - 1] == b;
    var q :| Chain(g, q) && q[0] == b && q[|q| - 1] == c;
    var r := p + q[1..];
    forall i | 0 <= i < |r| - 1 ensures r[i + 1] in Deps(g, r[i]) {
      if i >= |p| - 1 {
        assert r[i] == q[i - (|p| - 1)] && r[i + 1] == q[i + 1 - (|p| - 1)];
      }
    }
    assert Chain(g, r);
  }

  // ---------------------------------------------------------------- the depth-first search

  /** What the search has produced so far: the finished names and the output list. */
  datatype Search<T> = Search(visited: set<string>, sorted: seq<Registration<T>>)

  /** All names that a search can meet. */
  function Names<T>(g: map<string, Registration<T>>): (names: set<string>)
    ensures forall n :: n in g ==> n in names && forall d :: d in g[n].dependencies ==> d in names
  {
    g.Keys + (set n, d | n in g && d in g[n].dependencies :: d)
  }

  /** `visit(name)`; `None` stands for the exception raised on a circular dependency. */
  function Dfs<T>(g: map<string, Registration<T>>, name: string, visiting: set<string>, s: Search<T>)
      : (r: Option<Search<T>>)
    requires name in Names(g)
    decreases Names(g) - visiting, 0, 0
  {
    if name in visiting then None
    else if name in s.visited then Some(s)
    else
      match DfsAll(g, Deps(g, name), visiting + {name}, s)
      case None => None
      case Some(t) => Some(Finish(g, name, t))
  }

  /** The loop over a list of names: the dependencies of a hook, or all registered names. */
  function DfsAll<T>(g: map<string, Registration<T>>, names: seq<string>, visiting: set<string>, s: Search<T>)
      : (r: Option<Search<T>>)
    requires forall n :: n in names ==> n in Names(g)
    decreases Names(g) - visiting, 1, |names|
  {
    if names == [] then Some(s)
    else
      match Dfs(g, names[0], visiting, s)
      case None => None
      case Some(t) => DfsAll(g, names[1..], visiting, t)
  }

  function Finish<T>(g: map<string, Registration<T>>, name: string, t: Search<T>): Search<T> {
    Search(t.visited + {name}, t.sorted + (if name in g then [g[name]] else []))
  }

  function NamesOf<T>(regs: seq<Registration<T>>): (names: seq<string>)
    ensures |names| == |regs| && forall i :: 0 <= i < |regs| ==> names[i] == regs[i].name
  {
    if regs == [] then [] else [regs[0].name] + NamesOf(regs[1..])
  }

  function TopologicalSort<T>(regs: seq<Registration<T>>): Option<seq<Registration<T>>> {
    match DfsAll(ByName(regs), NamesOf(regs), {}, Search({}, []))
    case None => None
    case Some(t) => Some(t.sorted)
  }

  // ---------------------------------------------------------------- the search invariant

  ghost predicate Keyed<T>(g: map<string, Registration<T>>) {
    forall n :: n in g ==> g[n].name == n
  }

  lemma {:induction false} ByNameIsKeyed<T>(regs: seq<Registration<T>>)
    ensures Keyed(ByName(regs))
  {
    if regs != [] {
      ByNameIsKeyed(regs[..|regs| - 1]);
    }
  }

  ghost predicate InOutput<T>(out: seq<Registration<T>>, limit: nat, name: string)
    requires limit <= |out|
  {
    exists j :: 0 <= j < limit && out[j].name == name
  }

  /** The output lists the visited registered names, once each, dependencies first. */
  ghost predicate Consistent<T>(g: map<string, Registration<T>>, s: Search<T>) {
    && (forall i :: 0 <= i < |s.sorted| ==>
          s.sorted[i].name in g && s.sorted[i].name in s.visited && g[s.sorted[i].name] == s.sorted[i])
    && (forall i, j :: 0 <= i < j < |s.sorted| ==> s.sorted[i].name != s.sorted[j].name)
    && (forall n :: n in s.visited && n in g ==> InOutput(s.sorted, |s.sorted|, n))
    && DependenciesFirst(g, s.sorted)
  }

  /** Every registered dependency of an entry stands before the entry. */
  ghost predicate DependenciesFirst<T>(g: map<string, Registration<T>>, out: seq<Registration<T>>) {
    forall i, d :: 0 <= i < |out| && d in out[i].dependencies && d in g ==> InOutput(out, i, d)
  }

  /** What a search step keeps and adds: the output only grows at its end, nothing on the current
      path is finished, and every newly finished name satisfies `from`. */
  ghost predicate Extends<T>(s: Search<T>, t: Search<T>, visiting: set<string>) {
    s.visited <= t.visited && s.sorted <= t.sorted && (t.visited - s.visited) !! visiting
  }

  /** `n` is one of `names` or something one of them depends on. */
  ghost predicate ReachedFrom<T>(g: map<string, Registration<T>>, names: seq<string>, n: string) {
    exists i :: 0 <= i < |names| && (n == names[i] || DependsOn(g, names[i], n))
  }

  lemma StaysInOutput<T>(out: seq<Registration<T>>, longer: seq<Registration<T>>, limit: nat, name: string)
    requires limit <= |out| && out <= longer && InOutput(out, limit, name)
    ensures InOutput(longer, limit, name)
  {
    var j :| 0 <= j < limit && out[j].name == name;
    assert longer[j].name == name;
  }

  /** Whatever a finished name depends on is finished. */
  ghost predicate Closed<T>(g: map<string, Registration<T>>, visited: set<string>) {
    forall n, d :: n in visited && d in Deps(g, n) ==> d in visited
  }

  /** Some name depends on itself, directly or through others. */
  ghost predicate Cyclic<T>(g: map<string, Registration<T>>) {
    exists c :: DependsOn(g, c, c)
  }

  /** `t` is a correct result of searching from `names` in state `s` below the path `visiting`. */
  ghost predicate Explored<T>(g: map<string, Registration<T>>, names: seq<string>, visiting: set<string>,
                              s: Search<T>, t: Search<T>) {
    && Consistent(g, t) && Closed(g, t.visited) && Extends(s, t, visiting)
    && (forall n :: n in names ==> n in t.visited)
    && (forall n :: n in t.visited && n !in s.visited ==> ReachedFrom(g, names, n))
  }

  lemma FinishIsConsistent<T>(g: map<string, Registration<T>>, name: string, t: Search<T>)
    requires Keyed(g) && Consistent(g, t) && name !in t.visited
    requires forall d :: d in Deps(g, name) ==> d in t.visited
    ensures Consistent(g, Finish(g, name, t))
  {
    var u := Finish(g, name, t);
    forall n | n in u.visited && n in g ensures InOutput(u.sorted, |u.sorted|, n) {
      if n == name {
        assert u.sorted[|t.sorted|].name == name;
      } else {
        StaysInOutput(t.sorted, u.sorted, |t.sorted|, n);
      }
    }
    forall i, d | 0 <= i < |u.sorted| && d in u.sorted[i].dependencies && d in g
      ensures InOutput(u.sorted, i, d)
    {
      if i < |t.sorted| {
        assert u.sorted[i] == t.sorted[i];
        StaysInOutput(t.sorted, u.sorted, i, d);
      } else {
        StaysInOutput(t.sorted, u.sorted, |t.sorted|, d);
      }
    }
  }

  lemma FinishIsExplored<T>(g: map<string, Registration<T>>, name: string, visiting: set<string>,
                            s: Search<T>, t: Search<T>)
    requires Keyed(g) && name !in visiting && name !in s.visited
    requires Explored(g, Deps(g, name), visiting + {name}, s, t)
    ensures Explored(g, [name], visiting, s, Finish(g, name, t))
  {
    FinishIsConsistent(g, name, t);
    var u := Finish(g, name, t);
    forall n | n in u.visited && n !in s.visited ensures ReachedFrom(g, [name], n) {
      if n == name {
        assert [name][0] == n;
      } else {
        var deps := Deps(g, name);
        var i :| 0 <= i < |deps| && (n == deps[i] || DependsOn(g, deps[i], n));
        DirectDependency(g, name, deps[i]);
        if n != deps[i] { DependsOnIsTransitive(g, name, deps[i], n); }
        assert DependsOn(g, [name][0], n);
      }
    }
  }

  lemma ExploredInTurn<T>(g: map<string, Registration<T>>, names: seq<string>, visiting: set<string>,
                          s: Search<T>, t: Search<T>, u: Search<T>)
    requires names != []
    requires Explored(g, [names[0]], visiting, s, t) && Explored(g, names[1..], visiting, t, u)
    ensures Explored(g, names, visiting, s, u)
  {
    assert names[0] in [names[0]];
    forall n | n in names ensures n in u.visited {
      assert n == names[0] || n in names[1..];
    }
    forall n | n in u.visited && n !in s.visited ensures ReachedFrom(g, names, n) {
      if n in t.visited {
        assert n == names[0] || DependsOn(g, names[0], n);
      } else {
        var i :| 0 <= i < |names[1..]| && (n == names[1..][i] || DependsOn(g, names[1..][i], n));
        assert names[i + 1] == names[1..][i];
      }
    }
  }

  /** The search explores what is reachable; if it raises, the path it stands on closes a cycle. */
  lemma {:induction false} DfsIsSound<T>(g: map<string, Registration<T>>, name: string, visiting: set<string>, s: Search<T>)
    requires Keyed(g) && name in Names(g) && Consistent(g, s) && Closed(g, s.visited)
    requires forall v :: v in visiting ==> DependsOn(g, v, name)
    ensures match Dfs(g, name, visiting, s)
            case None => Cyclic(g)
            case Some(t) => Explored(g, [name], visiting, s, t)
    decreases Names(g) - visiting, 0, 0
  {
    if name in visiting {
      assert DependsOn(g, name, name);
    } else if name !in s.visited {
      var deps := Deps(g, name);
      forall v, d | v in visiting + {name} && d in deps ensures DependsOn(g, v, d) {
        DirectDependency(g, name, d);
        if v != name { DependsOnIsTransitive(g, v, name, d); }
      }
      DfsAllIsSound(g, deps, visiting + {name}, s);
      match DfsAll(g, deps, visiting + {name}, s)
      case None =>
      case Some(t) => FinishIsExplored(g, name, visiting, s, t);
    }
  }

  lemma {:induction false} DfsAllIsSound<T>(g: map<string, Registration<T>>, names: seq<string>, visiting: set<string>, s: Search<T>)
    requires Keyed(g) && Consistent(g, s) && Closed(g, s.visited) && forall n :: n in names ==> n in Names(g)
    requires forall v, n :: v in visiting && n in names ==> DependsOn(g, v, n)
    ensures match DfsAll(g, names, visiting, s)
            case None => Cyclic(g)
            case Some(t) => Explored(g, names, visiting, s, t)
    decreases Names(g) - visiting, 1, |names|
  {
    if names != [] {
      DfsIsSound(g, names[0], visiting, s);
      match Dfs(g, names[0], visiting, s)
      case None =>
      case Some(t) =>
        DfsAllIsSound(g, names[1..], visiting, t);
        match DfsAll(g, names[1..], visiting, t)
        case None =>
        case Some(u) => ExploredInTurn(g, names, visiting, s, t, u);
    }
  }

  // ---------------------------------------------------------------- correctness of the sort

  /** In an output that lists dependencies first, following a chain of dependencies moves forward
      to ever earlier entries. */
  lemma {:induction false} ChainMovesForward<T>(g: map<string, Registration<T>>, out: seq<Registration<T>>, p: seq<string>, at: nat)
      returns (end: nat)
    requires Chain(g, p) && DependenciesFirst(g, out) && p[|p| - 1] in g
    requires forall i :: 0 <= i < |out| ==> out[i].name in g && g[out[i].name] == out[i]
    requires at < |out| && out[at].name == p[0]
    ensures end < at && out[end].name == p[|p| - 1]
    decreases |p|
  {
    var d := p[1];
    assert d in Deps(g, p[0]);
    assert d in g by {
      if |p| > 2 { assert p[2] in Deps(g, d); }
    }
    assert InOutput(out, at, d);
    var j :| 0 <= j < at && out[j].name == d;
    end := j;
    if |p| > 2 {
      assert Chain(g, p[1..]) by {
        forall i | 0 <= i < |p[1..]| - 1 ensures p[1..][i + 1] in Deps(g, p[1..][i]) {
          assert p[(i + 1) + 1] in Deps(g, p[i + 1]);
        }
      }
      end := ChainMovesForward(g, out, p[1..], j);
    }
  }

  lemma OrderedIsAcyclic<T>(g: map<string, Registration<T>>, s: Search<T>)
    requires Keyed(g) && Consistent(g, s) && forall n :: n in g ==> n in s.visited
    ensures !Cyclic(g)
  {
    if Cyclic(g) {
      var c :| DependsOn(g, c, c);
      var p :| Chain(g, p) && p[0] == c && p[|p| - 1] == c;
      assert p[1] in Deps(g, c);
      assert InOutput(s.sorted, |s.sorted|, c);
      var at :| 0 <= at < |s.sorted| && s.sorted[at].name == c;
      var end := ChainMovesForward(g, s.sorted, p, at);
      assert false;
    }
  }

  lemma NothingSearched<T>(g: map<string, Registration<T>>)
    ensures Consistent<T>(g, Search({}, [])) && Closed(g, {})
  {
  }

  /** The sort raises exactly when the registered names contain a dependency cycle. */
  lemma RaisesExactlyOnCycles<T>(regs: seq<Registration<T>>)
    ensures TopologicalSort(regs) == None <==> Cyclic(ByName(regs))
  {
    var g := ByName(regs);
    ByNameIsKeyed(regs);
    NothingSearched(g);
    DfsAllIsSound(g, NamesOf(regs), {}, Search({}, []));
    match DfsAll(g, NamesOf(regs), {}, Search({}, []))
    case None =>
    case Some(t) =>
      forall n | n in g ensures n in t.visited {
        var i :| 0 <= i < |regs| && regs[i].name == n;
        assert NamesOf(regs)[i] in NamesOf(regs);
      }
      OrderedIsAcyclic(g, t);
  }

  /** Otherwise it lists every registered name once, by its last-ranked registration, with every
      present dependency before its dependents. */
  lemma SortsByDependency<T>(regs: seq<Registration<T>>)
    requires !Cyclic(ByName(regs))
    ensures var r := TopologicalSort(regs);
            && r.Some?
            && DependenciesFirst(ByName(regs), r.value)
            && (forall i, j :: 0 <= i < j < |r.value| ==> r.value[i].name != r.value[j].name)
            && (forall x :: x in r.value <==> x.name in ByName(regs) && x == ByName(regs)[x.name])
  {
    var g := ByName(regs);
    RaisesExactlyOnCycles(regs);
    ByNameIsKeyed(regs);
    NothingSearched(g);
    DfsAllIsSound(g, NamesOf(regs), {}, Search({}, []));
    var t := DfsAll(g, NamesOf(regs), {}, Search({}, [])).value;
    forall n | n in g ensures InOutput(t.sorted, |t.sorted|, n) {
      var i :| 0 <= i < |regs| && regs[i].name == n;
      assert NamesOf(regs)[i] in NamesOf(regs);
    }
  }

  // ---------------------------------------------------------------- priority order is disturbed only when forced

  ghost predicate UniqueNames<T>(regs: seq<Registration<T>>) {
    forall i, j :: 0 <= i < j < |regs| ==> regs[i].name != regs[j].name
  }

  /** Searching `a` and then `b` is searching `a + b`. */
  lemma {:induction false} DfsAllInParts<T>(g: map<string, Registration<T>>, a: seq<string>, b: seq<string>, visiting: set<string>, s: Search<T>)
    requires forall n :: n in a + b ==> n in Names(g)
    ensures (forall n :: n in a ==> n in Names(g)) && (forall n :: n in b ==> n in Names(g))
    ensures DfsAll(g, a + b, visiting, s)
         == match DfsAll(g, a, visiting, s)
            case None => None
            case Some(t) => DfsAll(g, b, visiting, t)
    decreases |a|
  {
    assert forall n :: n in a || n in b ==> n in a + b;
    if a == [] {
      assert a + b == b;
    } else {
      assert (a + b)[0] == a[0] && (a + b)[1..] == a[1..] + b;
      match Dfs(g, a[0], visiting, s)
      case None =>
      case Some(t) => DfsAllInParts(g, a[1..], b, visiting, t);
    }
  }

  /** The output starts with what the registrations ranked `0..j` need: `t` is the search after them. */
  lemma PrefixOfOutput<T>(regs: seq<Registration<T>>, j: nat) returns (t: Search<T>)
    requires j < |regs| && TopologicalSort(regs).Some?
    ensures t.sorted <= TopologicalSort(regs).value
    ensures InOutput(t.sorted, |t.sorted|, regs[j].name)
    ensures forall a :: 0 <= a < |t.sorted| ==> ReachedFrom(ByName(regs), NamesOf(regs)[..j + 1], t.sorted[a].name)
  {
    var g, names := ByName(regs), NamesOf(regs);
    var start: Search<T> := Search({}, []);
    ByNameIsKeyed(regs);
    NothingSearched(g);
    var front, rest := names[..j + 1], names[j + 1..];
    assert names == front + rest;
    DfsAllInParts(g, front, rest, {}, start);
    t := DfsAll(g, front, {}, start).value;
    DfsAllIsSound(g, front, {}, start);
    DfsAllIsSound(g, rest, {}, t);
    assert front[j] == regs[j].name && front[j] in front;
  }

  /** If `x` comes out before `y` although `y` ranks earlier, then something that ranks no later
      than `y` depends on `x`. */
  lemma OnlyForcedInversions<T>(regs: seq<Registration<T>>, i: nat, j: nat, a: nat, b: nat)
    requires UniqueNames(regs) && TopologicalSort(regs).Some?
    requires j < i < |regs|
    requires var out := TopologicalSort(regs).value;
             a < b < |out| && out[a].name == regs[i].name && out[b].name == regs[j].name
    ensures exists k :: 0 <= k <= j && DependsOn(ByName(regs), regs[k].name, regs[i].name)
  {
    var t := PrefixOfOutput(regs, j);
    assert regs[i].name !in NamesOf(regs)[..j + 1] by {
      assert forall k :: 0 <= k <= j ==> NamesOf(regs)[..j + 1][k] == regs[k].name;
    }
    RaisesExactlyOnCycles(regs);
    SortsByDependency(regs);
    InversionIsForced(ByName(regs), NamesOf(regs), j, TopologicalSort(regs).value, t.sorted, a, b, regs[i].name);
    var k :| 0 <= k <= j && DependsOn(ByName(regs), NamesOf(regs)[k], regs[i].name);
    assert DependsOn(ByName(regs), regs[k].name, regs[i].name);
  }

  lemma InversionIsForced<T>(g: map<string, Registration<T>>, names: seq<string>, j: nat, out: seq<Registration<T>>,
                             prefix: seq<Registration<T>>, a: nat, b: nat, x: string)
    requires j < |names| && prefix <= out && a < b < |out|
    requires forall m, n :: 0 <= m < n < |out| ==> out[m].name != out[n].name
    requires out[a].name == x && x !in names[..j + 1] && out[b].name == names[j]
    requires InOutput(prefix, |prefix|, names[j])
    requires forall m :: 0 <= m < |prefix| ==> ReachedFrom(g, names[..j + 1], prefix[m].name)
    ensures exists k :: 0 <= k <= j && DependsOn(g, names[k], x)
  {
    var front := names[..j + 1];
    var b' :| 0 <= b' < |prefix| && prefix[b'].name == names[j];
    assert out[b'] == prefix[b'];
    assert b' == b;
    assert out[a] == prefix[a];
    var k :| 0 <= k < |front| && (x == front[k] || DependsOn(g, front[k], x));
    assert front[k] in front && front[k] == names[k];
  }

  /** When the ranked list already has its dependencies first, the search leaves it as it is. */
  lemma {:induction false} FinishedDependencies<T>(g: map<string, Registration<T>>, names: seq<string>, visiting: set<string>, s: Search<T>)
    requires forall n :: n in names ==> n in Names(g) && n !in visiting && (n in s.visited || n !in g)
    ensures DfsAll(g, names, visiting, s) == Some(Search(s.visited + (set n | n in names), s.sorted))
    decreases |names|
  {
    if names == [] {
      assert s.visited + (set n | n in names) == s.visited;
    } else {
      var n := names[0];
      var t: Search<T> := Search(s.visited + {n}, s.sorted);
      assert Dfs(g, n, visiting, s) == Some(t) by {
        if n in s.visited {
          assert s.visited + {n} == s.visited;
        } else {
          assert Deps(g, n) == [];
          assert DfsAll(g, [], visiting + {n}, s) == Some(s);
          assert Finish(g, n, s) == t;
        }
      }
      FinishedDependencies(g, names[1..], visiting, t);
      assert t.visited + (set m | m in names[1..]) == s.visited + (set m | m in names);
    }
  }

  /** Every registered dependency of a registration ranks before it. */
  ghost predicate DependenciesRankFirst<T>(regs: seq<Registration<T>>) {
    forall i, d :: 0 <= i < |regs| && d in regs[i].dependencies && d in ByName(regs) ==> InOutput(regs, i, d)
  }

  /** Visiting a registration whose dependencies are finished or unregistered just appends it. */
  lemma VisitAppends<T>(g: map<string, Registration<T>>, reg: Registration<T>, s: Search<T>)
    requires reg.name in g && g[reg.name] == reg && reg.name !in s.visited
    requires forall d :: d in reg.dependencies ==> d != reg.name && (d in s.visited || d !in g)
    ensures DfsAll(g, [reg.name], {}, s)
         == Some(Search(s.visited + (set d | d in reg.dependencies) + {reg.name}, s.sorted + [reg]))
  {
    assert Deps(g, reg.name) == reg.dependencies;
    assert {} + {reg.name} == {reg.name};
    FinishedDependencies(g, reg.dependencies, {reg.name}, s);
    var t := DfsAll(g, reg.dependencies, {reg.name}, s).value;
    assert Dfs(g, reg.name, {}, s) == Some(Finish(g, reg.name, t));
    assert DfsAll(g, [reg.name][1..], {}, Finish(g, reg.name, t)) == Some(Finish(g, reg.name, t));
  }

  /** The search has listed exactly the first `k` registrations and visited no later one. */
  ghost predicate Reproduces<T>(g: map<string, Registration<T>>, regs: seq<Registration<T>>, k: nat, r: Option<Search<T>>)
    requires k <= |regs|
  {
    && r.Some? && r.value.sorted == regs[..k]
    && forall n :: n in g ==> (n in r.value.visited <==> InOutput(regs, k, n))
  }

  lemma AppendedReproduces<T>(g: map<string, Registration<T>>, regs: seq<Registration<T>>, k: nat, s: Search<T>, u: Search<T>)
    requires k < |regs| && Reproduces(g, regs, k, Some(s)) && u.sorted == s.sorted + [regs[k]]
    requires forall n :: n in g ==> (n in u.visited <==> n in s.visited || n == regs[k].name)
    ensures Reproduces(g, regs, k + 1, Some(u))
  {
    assert regs[..k + 1] == regs[..k] + [regs[k]];
    forall n | n in g ensures n in u.visited <==> InOutput(regs, k + 1, n) {
    }
  }

  lemma ReproducesOneMore<T>(regs: seq<Registration<T>>, k: nat, s: Search<T>)
    requires UniqueNames(regs) && DependenciesRankFirst(regs) && k < |regs| && Reproduces(ByName(regs), regs, k, Some(s))
    ensures Reproduces(ByName(regs), regs, k + 1, DfsAll(ByName(regs), [regs[k].name], {}, s))
  {
    var g, reg := ByName(regs), regs[k];
    ByNameIsLast(regs, k);
    forall d | d in reg.dependencies ensures d != reg.name && (d in s.visited || d !in g) {
    }
    VisitAppends(g, reg, s);
    AppendedReproduces(g, regs, k, s, Search(s.visited + (set d | d in reg.dependencies) + {reg.name}, s.sorted + [reg]));
  }

  /** The search for the first `k` names. */
  ghost function SearchOf<T>(regs: seq<Registration<T>>, k: nat): Option<Search<T>>
    requires k <= |regs|
  {
    assert forall n :: n in NamesOf(regs)[..k] ==> n in Names(ByName(regs)) by {
      forall n | n in NamesOf(regs)[..k] ensures n in Names(ByName(regs)) { NamesAreKnown(regs, k, n); }
    }
    DfsAll(ByName(regs), NamesOf(regs)[..k], {}, Search({}, []))
  }

  lemma OneMoreName<T>(regs: seq<Registration<T>>, k: nat)
    requires k < |regs|
    ensures NamesOf(regs)[..k + 1] == NamesOf(regs)[..k] + [regs[k].name]
  {
    assert NamesOf(regs)[k] == regs[k].name;
    TakeOneMore(NamesOf(regs), k);
  }

  lemma TakeOneMore<X>(s: seq<X>, k: nat)
    requires k < |s|
    ensures s[..k + 1] == s[..k] + [s[k]]
  {
  }

  lemma NamesAreKnown<T>(regs: seq<Registration<T>>, k: nat, n: string)
    requires k <= |regs| && n in NamesOf(regs)[..k]
    ensures n in Names(ByName(regs))
  {
    var i :| 0 <= i < k && NamesOf(regs)[i] == n;
    assert regs[i].name in ByName(regs);
  }

  lemma SearchOneMore<T>(regs: seq<Registration<T>>, k: nat)
    requires k < |regs| && SearchOf(regs, k).Some?
    ensures SearchOf(regs, k + 1) == DfsAll(ByName(regs), [regs[k].name], {}, SearchOf(regs, k).value)
  {
    OneMoreName(regs, k);
    forall n | n in NamesOf(regs)[..k + 1] ensures n in Names(ByName(regs)) {
      NamesAreKnown(regs, k + 1, n);
    }
    DfsAllInParts(ByName(regs), NamesOf(regs)[..k], [regs[k].name], {}, Search({}, []));
  }

  /** After `k` names the search has reproduced the first `k` registrations. */
  lemma {:induction false} OrderedPrefixIsKept<T>(regs: seq<Registration<T>>, k: nat)
    requires UniqueNames(regs) && DependenciesRankFirst(regs) && k <= |regs|
    ensures Reproduces(ByName(regs), regs, k, SearchOf(regs, k))
  {
    if k > 0 {
      OrderedPrefixIsKept(regs, k - 1);
      SearchOneMore(regs, k - 1);
      ReproducesOneMore(regs, k - 1, SearchOf(regs, k - 1).value);
    }
  }

  /** When priorities already put dependencies first, and in particular when there are none,
      the priority order is the final order. */
  lemma OrderedListIsKept<T>(regs: seq<Registration<T>>)
    requires UniqueNames(regs) && DependenciesRankFirst(regs)
    ensures TopologicalSort(regs) == Some(regs)
  {
    OrderedPrefixIsKept(regs, |regs|);
    assert NamesOf(regs)[..|regs|] == NamesOf(regs) && regs[..|regs|] == regs;
  }

  // ---------------------------------------------------------------- sorting hooks

  /** `sortHooks`; `None` stands for the exception. */
  function SortHooks<T>(regs: seq<Registration<T>>): Option<seq<Registration<T>>> {
    TopologicalSort(Sort(ByRank(), regs))
  }

  /** Hooks without dependencies run in priority order, ties in registration order. */
  lemma WithoutDependencies<T(!new)>(regs: seq<Registration<T>>)
    requires UniqueNames(regs) && forall r :: r in regs ==> r.dependencies == []
    ensures SortHooks(regs).Some? && IsStableSortOf(ByRank(), regs, SortHooks(regs).value)
  {
    var ranked := Sort(ByRank(), regs);
    RankIsTotalPreorder<T>();
    SortIsStableSort(ByRank(), regs);
    SortContents(ByRank(), regs);
    UniqueNamesSurviveSorting(regs, ranked);
    forall i | 0 <= i < |ranked| ensures ranked[i].dependencies == [] {
      assert ranked[i] in multiset(ranked);
      assert ranked[i] in regs;
    }
    assert DependenciesRankFirst(ranked);
    OrderedListIsKept(ranked);
  }

  /** The list that `register*` leaves: re-sorted, or in priority order if the sort throws. */
  function Registered<T>(hooks: seq<Registration<T>>, r: Registration<T>): seq<Registration<T>> {
    var added := hooks + [r];
    if SortHooks(added).Some? then SortHooks(added).value else Sort(ByRank(), added)
  }

  /** The list after a run of registrations, each of which sorts what the one before has left. */
  function AfterRegistrations<T>(history: seq<Registration<T>>): seq<Registration<T>> {
    if history == [] then []
    else Registered(AfterRegistrations(history[..|history| - 1]), history[|history| - 1])
  }

  /** Without dependencies and with different names, sorting again and again comes to the same as sorting
      the whole history once: priority order, ties in registration order. */
  lemma {:induction false} RegistrationsSortHistory<T(!new)>(history: seq<Registration<T>>)
    requires UniqueNames(history) && forall r :: r in history ==> r.dependencies == []
    ensures AfterRegistrations(history) == Sort(ByRank(), history)
    ensures IsStableSortOf(ByRank(), history, AfterRegistrations(history))
  {
    RankIsTotalPreorder<T>();
    SortIsStableSort(ByRank(), history);
    if history != [] {
      var front, r := history[..|history| - 1], history[|history| - 1];
      RegistrationsSortHistory(front);
      SortContents(ByRank(), front);
      SortsOneMore(front, r);
    }
  }

  lemma SortsOneMore<T(!new)>(front: seq<Registration<T>>, r: Registration<T>)
    requires UniqueNames(front + [r]) && forall x :: x in front + [r] ==> x.dependencies == []
    ensures Registered(Sort(ByRank(), front), r) == Sort(ByRank(), front + [r])
  {
    var ranked := Sort(ByRank(), front);
    RankIsTotalPreorder<T>();
    SortContents(ByRank(), front);
    UniqueNamesSurviveSorting(front + [r], ranked + [r]);
    forall x | x in ranked + [r] ensures x.dependencies == [] {
      assert x in multiset(ranked + [r]);
      assert x in multiset(front + [r]);
    }
    WithoutDependencies(ranked + [r]);
    StableSortIsUnique(ByRank(), ranked + [r], SortHooks(ranked + [r]).value);
    SortIsStableSort(ByRank(), front);
    SortedIsFixed(ByRank(), ranked);
    assert (ranked + [r])[..|ranked|] == ranked && (front + [r])[..|front|] == front;
  }

  lemma UniqueNamesSurviveSorting<T>(regs: seq<Registration<T>>, ranked: seq<Registration<T>>)
    requires UniqueNames(regs) && multiset(ranked) == multiset(regs)
    ensures UniqueNames(ranked)
  {
    forall i, j | 0 <= i < j < |ranked| ensures ranked[i].name != ranked[j].name {
      var x, y := ranked[i], ranked[j];
      if x.name == y.name {
        assert x in multiset(ranked) && y in multiset(ranked);
        assert x in regs && y in regs;
        TwoPlaces(ranked, i, j);
        assert x == y;
        OnePlace(regs, x);
      }
    }
  }

  lemma {:induction false} OnePlace<T>(regs: seq<Registration<T>>, x: Registration<T>)
    requires UniqueNames(regs)
    ensures multiset(regs)[x] <= 1
  {
    if regs != [] {
      var front, last := regs[..|regs| - 1], regs[|regs| - 1];
      assert regs == front + [last];
      OnePlace(front, x);
    }
  }

  // ---------------------------------------------------------------- the registry

  class TopologicalSorter<T> {
    const nameToReg: map<string, Registration<T>>
    var visiting: set<string>
    var visited: set<string>
    var sorted: seq<Registration<T>>

    constructor (registrations: seq<Registration<T>>)
      ensures nameToReg == ByName(registrations)
      ensures visiting == {} && visited == {} && sorted == []
    {
      nameToReg := ByName(registrations);
      visiting, visited, sorted := {}, {}, [];
    }

    /** False where the original throws. */
    method Visit(name: string) returns (ok: bool)
      requires name in Names(nameToReg)
      modifies this
      ensures var r := Dfs(nameToReg, name, old(visiting), Search(old(visited), old(sorted)));
              && ok == r.Some?
              && (ok ==> visiting == old(visiting) && Search(visited, sorted) == r.value)
      decreases Names(nameToReg) - visiting
    {
      if name in visiting {
        return false;
      }
      if name in visited {
        return true;
      }
      visiting := visiting + {name};
      ghost var path, s := visiting, Search(visited, sorted);
      var deps := Deps(nameToReg, name);
      for i := 0 to |deps|
        invariant visiting == path
        invariant DfsAll(nameToReg, deps, path, s)
               == DfsAll(nameToReg, deps[i..], path, Search(visited, sorted))
      {
        ok := Visit(deps[i]);
        if !ok {
          return;
        }
        assert deps[i..][0] == deps[i] && deps[i..][1..] == deps[i + 1..];
      }
      visiting := visiting - {name};
      visited := visited + {name};
      if name in nameToReg {
        sorted := sorted + [nameToReg[name]];
      }
      ok := true;
    }
  }

  class HookRegistry<T> {
    var hooks: seq<Registration<T>>

    constructor ()
      ensures hooks == []
    {
      hooks := [];
    }

    /** Adds a hook and re-sorts. On a circular dependency the original throws after the new hook
        has been pushed and the list has been put into priority order; both effects remain. */
    method Register(hook: T, hookName: string, metadata: PartialMetadata) returns (ok: bool)
      modifies this
      ensures var added := old(hooks) + [Prepare(hook, hookName, metadata)];
              match SortHooks(added)
              case None => !ok && hooks == Sort(ByRank(), added)
              case Some(out) => ok && hooks == out
      ensures hooks == Registered(old(hooks), Prepare(hook, hookName, metadata))
    {
      hooks := hooks + [Prepare(hook, hookName, metadata)];
      hooks := Sort(ByRank(), hooks);
      var out := TopologicalSortHooks();
      ok := out.Some?;
      if ok {
        hooks := out.value;
      }
    }

    method TopologicalSortHooks() returns (out: Option<seq<Registration<T>>>)
      ensures out == TopologicalSort(hooks)
    {
      var search := new TopologicalSorter(hooks);
      ghost var g, names := ByName(hooks), NamesOf(hooks);
      for i := 0 to |hooks|
        invariant search.visiting == {}
        invariant DfsAll(g, names, {}, Search({}, []))
               == DfsAll(g, names[i..], {}, Search(search.visited, search.sorted))
      {
        ghost var rest := names[i..];
        assert rest[0] == hooks[i].name && rest[1..] == names[i + 1..];
        var ok := search.Visit(hooks[i].name);
        if !ok {
          return None;
        }
      }
      out := Some(search.sorted);
    }
  }
}
