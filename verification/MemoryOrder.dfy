/** How the order in which entries are added to a memory level decides what the level keeps: exactly when it
    does not. */
module MemoryOrder {
  import opened StableSort
  import opened MemoryManager

  /** A level with `x` added, as `add` leaves it. */
  function Joined(s: seq<Entry>, x: Entry, budget: nat): seq<Entry> {
    Fit(Sort(Before, s + [x]), budget)
  }

  /** A level after adding the entries of `h` one by one. */
  function AddAll(h: seq<Entry>, budget: nat): seq<Entry> {
    if h == [] then [] else Joined(AddAll(h[..|h| - 1], budget), h[|h| - 1], budget)
  }

  function Adds(level: Level, h: seq<Entry>): seq<Op> {
    seq(|h|, i requires 0 <= i < |h| => Add(level, h[i]))
  }

  /** `AddAll` is what a run of adds to one level leaves there. */
  lemma {:induction false} AddsLeaveAll(level: Level, h: seq<Entry>)
    ensures After(Adds(level, h)).storage[level] == AddAll(h, Budget(level))
  {
    if h != [] {
      assert Adds(level, h)[..|h| - 1] == Adds(level, h[..|h| - 1]);
      AddsLeaveAll(level, h[..|h| - 1]);
    }
  }

  lemma {:induction false} AddAllCovers(h: seq<Entry>, budget: nat)
    ensures Covers(Sort(Before, h), AddAll(h, budget), budget) && Size(AddAll(h, budget)) <= budget
  {
    if h != [] {
      var front, x := h[..|h| - 1], h[|h| - 1];
      AddAllCovers(front, budget);
      SortInserts(AddAll(front, budget), x);
      AddKeepsCover(Sort(Before, front), AddAll(front, budget), x, budget);
      FitFits(Insert(Before, AddAll(front, budget), x), budget);
    }
  }

  // ---------------------------------------------------------------- the condition

  /** No entry is added twice. */
  ghost predicate Distinct(h: seq<Entry>) {
    forall e :: multiset(h)[e] <= 1
  }

  /** The rank order in which, among ties, entries that exceed the budget alone come last. */
  predicate RanksSmallFirst(a: Entry, b: Entry, budget: nat) {
    Before(a, b) && (Before(b, a) && |a.content| > budget ==> |b.content| > budget)
  }

  function SmallFirst(budget: nat): (Entry, Entry) -> bool {
    (a, b) => RanksSmallFirst(a, b, budget)
  }

  /** The longest fitting prefix of the ranking of `h`. */
  function Top(h: seq<Entry>, budget: nat): seq<Entry> {
    Fit(Sort(SmallFirst(budget), h), budget)
  }

  /** Nothing outside the top would fit behind it. */
  ghost predicate NothingElseFits(h: seq<Entry>, budget: nat) {
    forall x :: x in h && x !in Top(h, budget) ==> Size(Top(h, budget)) + |x.content| > budget
  }

  /** An entry of the top ties with no entry other than those that exceed the budget alone. */
  ghost predicate TopIsUntied(h: seq<Entry>, budget: nat) {
    forall k, x :: k in Top(h, budget) && x in h && k != x && Tied(Before, k, x) ==> |x.content| > budget
  }

  /** Every order of the same adds leaves the same level. */
  ghost predicate OrderIsIrrelevant(h: seq<Entry>, budget: nat) {
    forall t :: multiset(t) == multiset(h) ==> AddAll(t, budget) == AddAll(h, budget)
  }

  lemma SmallFirstIsTotal(budget: nat)
    ensures TotalPreorder(SmallFirst(budget))
  {
  }

  lemma RankingOf(h: seq<Entry>, budget: nat)
    requires Distinct(h)
    ensures var all := Sort(SmallFirst(budget), h);
      && Sorted(SmallFirst(budget), all) && multiset(all) == multiset(h) && Distinct(all)
      && Top(h, budget) <= all && Size(Top(h, budget)) <= budget
  {
    var all := Sort(SmallFirst(budget), h);
    SmallFirstIsTotal(budget);
    SortIsStableSort(SmallFirst(budget), h);
    SortContents(SmallFirst(budget), h);
    FitIsLongest(all, budget);
    FitFits(all, budget);
  }

  lemma RanksBefore(all: seq<Entry>, budget: nat)
    requires Sorted(SmallFirst(budget), all)
    ensures Sorted(Before, all)
  {
    forall i, j | 0 <= i < j < |all| ensures Before(all[i], all[j]) {
      assert SmallFirst(budget)(all[i], all[j]);
    }
  }

  lemma SamePlace(s: seq<Entry>, i: nat, j: nat)
    requires Distinct(s) && i < |s| && j < |s| && s[i] == s[j]
    ensures i == j
  {
    if i < j {
      TwoPlaces(s, i, j);
    } else if j < i {
      TwoPlaces(s, j, i);
    }
  }

  lemma SameMembers(s: seq<Entry>, t: seq<Entry>)
    requires multiset(s) == multiset(t)
    ensures forall e :: e in s <==> e in t
  {
    assert forall e :: e in s <==> e in multiset(s);
    assert forall e :: e in t <==> e in multiset(t);
  }

  lemma {:induction false} MemberSize(s: seq<Entry>, e: Entry)
    requires e in s
    ensures |e.content| <= Size(s)
  {
    if s[|s| - 1] != e {
      assert e in s[..|s| - 1];
      MemberSize(s[..|s| - 1], e);
    }
  }

  lemma SizeOfNext(kept: seq<Entry>, level: seq<Entry>)
    requires kept <= level && |kept| < |level|
    ensures Size(kept) + |level[|kept|].content| <= Size(level)
  {
    var k := |kept|;
    assert level[..k + 1] == kept + [level[k]];
    PrefixIsSmaller(level, k + 1);
    SizeAppend(kept, [level[k]]);
    assert [level[k]][..0] == [];
  }

  // ---------------------------------------------------------------- adding in rank order

  lemma LevelRanksBefore(front: seq<Entry>, x: Entry, budget: nat)
    requires Sorted(Before, front + [x])
    ensures var level := AddAll(front, budget);
            Sorted(Before, level) && Size(level) <= budget && (level == [] || Before(level[|level| - 1], x))
  {
    var level := AddAll(front, budget);
    AddAllCovers(front, budget);
    SortContents(Before, front);
    if level != [] {
      var last := level[|level| - 1];
      assert last in multiset(level);
      assert last in multiset(front);
      var i :| 0 <= i < |front| && front[i] == last;
      assert Before((front + [x])[i], (front + [x])[|front|]);
    }
  }

  lemma FitOfOneMore(level: seq<Entry>, x: Entry, budget: nat)
    requires Size(level) <= budget
    ensures Fit(level + [x], budget) == if Size(level) + |x.content| <= budget then level + [x] else level
  {
    assert (level + [x])[..|level|] == level;
  }

  /** The level after one more add in rank order: the entry is appended if it fits. */
  function Greedy(level: seq<Entry>, x: Entry, budget: nat): seq<Entry> {
    if Size(level) + |x.content| <= budget then level + [x] else level
  }

  /** An entry that ranks after the whole level is appended if it fits, and dropped at once otherwise. */
  lemma JoinsBehind(level: seq<Entry>, x: Entry, budget: nat)
    requires Sorted(Before, level) && Size(level) <= budget && (level == [] || Before(level[|level| - 1], x))
    ensures Joined(level, x, budget) == Greedy(level, x, budget)
  {
    SortInserts(level, x);
    assert Insert(Before, level, x) == level + [x];
    FitOfOneMore(level, x, budget);
  }

  lemma AddsOneMore(front: seq<Entry>, x: Entry, budget: nat)
    ensures AddAll(front + [x], budget) == Joined(AddAll(front, budget), x, budget)
  {
    assert (front + [x])[..|front|] == front;
  }

  lemma RankedAddIsGreedy(front: seq<Entry>, x: Entry, budget: nat)
    requires Sorted(Before, front + [x])
    ensures AddAll(front + [x], budget) == Greedy(AddAll(front, budget), x, budget)
  {
    LevelRanksBefore(front, x, budget);
    JoinsBehind(AddAll(front, budget), x, budget);
    AddsOneMore(front, x, budget);
  }

  lemma LastRanks(s: seq<Entry>) returns (front: seq<Entry>, x: Entry)
    requires s != [] && Sorted(Before, s)
    ensures s == front + [x] && Sorted(Before, front)
  {
    front, x := s[..|s| - 1], s[|s| - 1];
  }

  lemma {:induction false} FittingListIsKept(s: seq<Entry>, budget: nat)
    requires Sorted(Before, s) && Size(s) <= budget
    ensures AddAll(s, budget) == s
  {
    if s != [] {
      var front, x := LastRanks(s);
      SizeAppend(front, [x]);
      FittingListIsKept(front, budget);
      RankedAddIsGreedy(front, x, budget);
      assert [x][..0] == [];
    }
  }

  /** The level has more than `n` entries, or it has `n` entries of size `used` and nothing in `passed` would
      have fitted behind them. */
  ghost predicate KeepsMore(level: seq<Entry>, n: nat, used: nat, passed: seq<Entry>, budget: nat) {
    || |level| > n
    || (|level| == n && Size(level) == used && forall x :: x in passed ==> used + |x.content| > budget)
  }

  lemma GreedyKeepsMore(level: seq<Entry>, n: nat, used: nat, passed: seq<Entry>, x: Entry, budget: nat)
    requires KeepsMore(level, n, used, passed, budget)
    ensures KeepsMore(Greedy(level, x, budget), n, used, passed + [x], budget)
  {
  }

  /** In rank order, the first entry behind a fitting list that fits too is kept too. */
  lemma {:induction false} RankOrderKeepsMore(kept: seq<Entry>, rest: seq<Entry>, budget: nat)
    requires Sorted(Before, kept + rest) && Size(kept) <= budget
    ensures KeepsMore(AddAll(kept + rest, budget), |kept|, Size(kept), rest, budget)
    decreases |rest|
  {
    if rest == [] {
      assert kept + rest == kept;
      FittingListIsKept(kept, budget);
    } else {
      var front, x := rest[..|rest| - 1], rest[|rest| - 1];
      assert rest == front + [x] && kept + rest == (kept + front) + [x];
      PrefixKeepsOrder(kept + rest, kept + front);
      RankOrderKeepsMore(kept, front, budget);
      RankedAddIsGreedy(kept + front, x, budget);
      GreedyKeepsMore(AddAll(kept + front, budget), |kept|, Size(kept), front, x, budget);
    }
  }

  lemma {:induction false} RankOrderKeepsFirst(kept: seq<Entry>, rest: seq<Entry>, budget: nat)
    requires Sorted(Before, kept + rest) && Size(kept) <= budget
    ensures kept <= AddAll(kept + rest, budget)
    decreases |rest|
  {
    if rest == [] {
      assert kept + rest == kept;
      FittingListIsKept(kept, budget);
    } else {
      var front, x := rest[..|rest| - 1], rest[|rest| - 1];
      assert kept + rest == (kept + front) + [x];
      PrefixKeepsOrder(kept + rest, kept + front);
      RankOrderKeepsFirst(kept, front, budget);
      RankedAddIsGreedy(kept + front, x, budget);
    }
  }

  // ---------------------------------------------------------------- with the condition, the top is what remains

  lemma SmallerContents(a: seq<Entry>, b: seq<Entry>)
    requires multiset(a) <= multiset(b)
    ensures Size(a) <= Size(b)
    decreases |a|
  {
    if a != [] {
      var front, x := a[..|a| - 1], a[|a| - 1];
      assert multiset(a) == multiset(front) + multiset{x} by { assert a == front + [x]; }
      assert x in multiset(a);
      assert x in multiset(b);
      var rest := TakenOut(b, x);
      forall z ensures multiset(front)[z] <= multiset(rest)[z] {
        assert multiset(a)[z] <= multiset(b)[z];
      }
      SmallerContents(front, rest);
    }
  }

  lemma TakenOut(s: seq<Entry>, x: Entry) returns (rest: seq<Entry>)
    requires x in s
    ensures multiset(s) == multiset(rest) + multiset{x} && Size(s) == Size(rest) + |x.content|
  {
    var i :| 0 <= i < |s| && s[i] == x;
    rest := s[..i] + s[i + 1..];
    assert s == s[..i] + ([x] + s[i + 1..]);
    SizeAppend(s[..i], [x] + s[i + 1..]);
    SizeAppend([x], s[i + 1..]);
    SizeAppend(s[..i], s[i + 1..]);
    assert [x][..0] == [];
  }

  /** The level is made of `a`, the entries of `p` that are in `kept`, and of others behind them. */
  ghost predicate Topped(p: seq<Entry>, kept: seq<Entry>, a: seq<Entry>, e: seq<Entry>) {
    && (forall z :: z in a <==> z in p && z in kept)
    && (forall z :: z in e ==> z in p && z !in kept)
  }

  lemma FitsInTop(p: seq<Entry>, kept: seq<Entry>, a: seq<Entry>)
    requires multiset(a) <= multiset(p) && Distinct(p) && forall z :: z in a ==> z in kept
    ensures Size(a) <= Size(kept)
  {
    forall z ensures multiset(a)[z] <= multiset(kept)[z] {
      if z in a {
        assert z in multiset(kept);
      }
    }
    SmallerContents(a, kept);
  }

  lemma FitKeepsTop(p: seq<Entry>, kept: seq<Entry>, a: seq<Entry>, e: seq<Entry>, budget: nat) returns (e': seq<Entry>)
    requires Topped(p, kept, a, e) && Size(a) <= budget
    ensures Fit(a + e, budget) == a + e' && Topped(p, kept, a, e')
  {
    FitKeeps(a + e, a, budget);
    FitIsLongest(a + e, budget);
    e' := Fit(a + e, budget)[|a|..];
    assert e' <= e;
  }

  lemma InsertMembers(s: seq<Entry>, x: Entry)
    ensures forall z :: z in Insert(Before, s, x) <==> z in s || z == x
  {
    InsertContents(Before, s, x);
    assert forall z :: z in s + [x] <==> z in s || z == x;
    assert multiset(s + [x]) == multiset(s) + multiset{x};
    SameMembers(Insert(Before, s, x), s + [x]);
  }

  /** An entry of the top is inserted before all others. */
  lemma TopJoins(p: seq<Entry>, kept: seq<Entry>, a: seq<Entry>, e: seq<Entry>, x: Entry)
    requires Topped(p, kept, a, e) && x in kept && forall z :: z in e ==> !Before(z, x)
    ensures Insert(Before, a + e, x) == Insert(Before, a, x) + e
    ensures Topped(p + [x], kept, Insert(Before, a, x), e)
  {
    InsertInFront(a, e, x);
    InsertMembers(a, x);
  }

  /** Any other entry is inserted behind the top. */
  lemma OtherJoins(p: seq<Entry>, kept: seq<Entry>, a: seq<Entry>, e: seq<Entry>, x: Entry)
    requires Topped(p, kept, a, e) && x !in kept && forall z :: z in a ==> Before(z, x)
    ensures Insert(Before, a + e, x) == a + Insert(Before, e, x)
    ensures Topped(p + [x], kept, a, Insert(Before, e, x))
  {
    assert a == [] || a[|a| - 1] in a;
    InsertBehind(a, e, x);
    InsertMembers(e, x);
  }

  /** How the entries of the top rank against the others. */
  ghost predicate TopRanksFirst(h: seq<Entry>, kept: seq<Entry>, budget: nat) {
    forall k, x :: k in kept && x in h && x !in kept ==> Before(k, x) && (|x.content| <= budget ==> !Before(x, k))
  }

  lemma TopRanks(h: seq<Entry>, budget: nat)
    requires Distinct(h) && TopIsUntied(h, budget)
    ensures TopRanksFirst(h, Top(h, budget), budget)
  {
    TopIsTidy(h, budget);
    forall k, x | k in Top(h, budget) && x in h && x !in Top(h, budget)
      ensures Before(k, x) && (|x.content| <= budget ==> !Before(x, k))
    {
      RanksBehindTop(h, k, x, budget);
      NotTiedWithTop(h, k, x, budget);
    }
  }

  lemma NotTiedWithTop(h: seq<Entry>, k: Entry, x: Entry, budget: nat)
    requires TopIsUntied(h, budget) && k in Top(h, budget) && x in h && x !in Top(h, budget)
    ensures Before(k, x) && Before(x, k) ==> |x.content| > budget
  {
    assert k != x;
    assert Tied(Before, k, x) <==> Before(k, x) && Before(x, k);
  }

  lemma RanksBehindTop(h: seq<Entry>, k: Entry, x: Entry, budget: nat)
    requires Distinct(h) && k in Top(h, budget) && x in h && x !in Top(h, budget)
    ensures Before(k, x)
  {
    var all := Sort(SmallFirst(budget), h);
    RankingOf(h, budget);
    RanksBefore(all, budget);
    SameMembers(all, h);
    PrefixRanksFirst(all, Top(h, budget), k, x);
  }

  lemma PrefixRanksFirst(all: seq<Entry>, kept: seq<Entry>, k: Entry, x: Entry)
    requires Sorted(Before, all) && kept <= all && k in kept && x in all && x !in kept
    ensures Before(k, x)
  {
    var i :| 0 <= i < |kept| && kept[i] == k;
    var j :| 0 <= j < |all| && all[j] == x;
    assert all[i] == k;
    assert j < |kept| ==> kept[j] == x;
  }

  lemma JoinedTop(h: seq<Entry>, p: seq<Entry>, kept: seq<Entry>, a: seq<Entry>, e: seq<Entry>, x: Entry, budget: nat)
    returns (a': seq<Entry>, e': seq<Entry>)
    requires Topped(p, kept, a, e) && TopRanksFirst(h, kept, budget) && Size(kept) <= budget
    requires Distinct(p + [x]) && (forall z :: z in p + [x] ==> z in h)
    requires multiset(a + e) <= multiset(p) && Size(a + e) <= budget
    ensures Fit(Insert(Before, a + e, x), budget) == a' + e' && Topped(p + [x], kept, a', e')
  {
    assert x in p + [x] && forall z :: z in p ==> z in p + [x];
    assert multiset(p + [x]) == multiset(p) + multiset{x};
    assert multiset(a + e) == multiset(a) + multiset(e);
    if x in kept {
      forall z | z in e ensures !Before(z, x) {
        assert z in a + e;
        MemberSize(a + e, z);
      }
      TopJoins(p, kept, a, e, x);
      a' := Insert(Before, a, x);
      InsertContents(Before, a, x);
      FitsInTop(p + [x], kept, a');
      e' := FitKeepsTop(p + [x], kept, a', e, budget);
    } else {
      OtherJoins(p, kept, a, e, x);
      a' := a;
      FitsInTop(p + [x], kept, a);
      e' := FitKeepsTop(p + [x], kept, a, Insert(Before, e, x), budget);
    }
  }

  lemma {:induction false} StaysTopped(h: seq<Entry>, p: seq<Entry>, budget: nat) returns (a: seq<Entry>, e: seq<Entry>)
    requires Distinct(h) && TopIsUntied(h, budget) && multiset(p) <= multiset(h)
    ensures AddAll(p, budget) == a + e && Topped(p, Top(h, budget), a, e)
    decreases |p|
  {
    if p == [] {
      a, e := [], [];
    } else {
      var front, x := p[..|p| - 1], p[|p| - 1];
      assert p == front + [x];
      assert multiset(front) <= multiset(p);
      a, e := StaysTopped(h, front, budget);
      RankingOf(h, budget);
      TopRanks(h, budget);
      LevelComesFrom(front, budget);
      ComeFrom(p, h);
      SortInserts(a + e, x);
      a, e := JoinedTop(h, front, Top(h, budget), a, e, x, budget);
    }
  }

  lemma LevelComesFrom(p: seq<Entry>, budget: nat)
    ensures multiset(AddAll(p, budget)) <= multiset(p) && Size(AddAll(p, budget)) <= budget
    ensures Sorted(Before, AddAll(p, budget))
  {
    AddAllCovers(p, budget);
    SortContents(Before, p);
  }

  lemma ComeFrom(p: seq<Entry>, h: seq<Entry>)
    requires multiset(p) <= multiset(h)
    ensures forall z :: z in p ==> z in h
    ensures Distinct(h) ==> Distinct(p)
  {
    forall z | z in p ensures z in h {
      assert z in multiset(p);
      assert z in multiset(h);
    }
  }

  lemma SameTop(h: seq<Entry>, kept: seq<Entry>, level: seq<Entry>, budget: nat)
    requires Distinct(level) && Distinct(kept) && (forall z :: z in level <==> z in kept)
    requires Sorted(Before, level) && Sorted(Before, kept)
    requires forall k, x :: k in kept && x in kept && Tied(Before, k, x) ==> k == x
    ensures level == kept
  {
    forall z ensures multiset(level)[z] == multiset(kept)[z] {
      assert z in multiset(level) <==> z in level;
      assert z in multiset(kept) <==> z in kept;
    }
    SortedOnceOnly(Before, level, kept);
  }

  lemma TopIsTidy(h: seq<Entry>, budget: nat)
    requires Distinct(h)
    ensures var kept := Top(h, budget);
      Distinct(kept) && Sorted(Before, kept) && (forall z :: z in kept ==> z in h && |z.content| <= budget)
  {
    var all, kept := Sort(SmallFirst(budget), h), Top(h, budget);
    RankingOf(h, budget);
    RanksBefore(all, budget);
    SameMembers(all, h);
    assert all == kept + all[|kept|..];
    assert multiset(kept) <= multiset(all);
    forall z | z in kept ensures |z.content| <= budget {
      MemberSize(kept, z);
    }
  }

  lemma TopRemains(h: seq<Entry>, t: seq<Entry>, budget: nat)
    requires Distinct(h) && NothingElseFits(h, budget) && TopIsUntied(h, budget) && multiset(t) == multiset(h)
    ensures AddAll(t, budget) == Top(h, budget)
  {
    var kept := Top(h, budget);
    var a, e := StaysTopped(h, t, budget);
    LevelComesFrom(t, budget);
    SameMembers(t, h);
    TopIsTidy(h, budget);
    ComeFrom(AddAll(t, budget), h);
    FirstPart(a, e);
    TopTiesNothing(h, budget);
    SameTop(h, kept, a, budget);
    NothingBehindTop(h, a, e, budget);
  }

  lemma FirstPart(a: seq<Entry>, e: seq<Entry>)
    requires Sorted(Before, a + e) && Distinct(a + e)
    ensures Sorted(Before, a) && Distinct(a)
  {
    PrefixKeepsOrder(a + e, a);
    forall z ensures multiset(a)[z] <= 1 {
      assert multiset(a + e)[z] == multiset(a)[z] + multiset(e)[z];
    }
  }

  lemma TopTiesNothing(h: seq<Entry>, budget: nat)
    requires Distinct(h) && TopIsUntied(h, budget)
    ensures forall k, x :: k in Top(h, budget) && x in Top(h, budget) && Tied(Before, k, x) ==> k == x
  {
    TopIsTidy(h, budget);
  }

  lemma NothingBehindTop(h: seq<Entry>, a: seq<Entry>, e: seq<Entry>, budget: nat)
    requires NothingElseFits(h, budget) && a == Top(h, budget) && Size(a + e) <= budget
    requires forall z :: z in e ==> z in h && z !in a
    ensures a + e == a
  {
    if e != [] {
      SizeOfNext(a, a + e);
    }
  }

  // ---------------------------------------------------------------- one entry before another, in every order

  /** `e` is only there behind `y`. */
  ghost predicate Shielded(level: seq<Entry>, y: Entry, e: Entry) {
    forall j :: 0 <= j < |level| && level[j] == e ==> y in level[..j]
  }

  lemma {:induction false} InsertSplits(s: seq<Entry>, x: Entry) returns (p: nat)
    ensures p <= |s| && Insert(Before, s, x) == (s[..p] + [x]) + s[p..]
  {
    if s == [] || Before(s[|s| - 1], x) {
      p := |s|;
      assert s[..p] == s && s[p..] == [];
    } else {
      var front := s[..|s| - 1];
      p := InsertSplits(front, x);
      assert front[..p] == s[..p] && front[p..] + [s[|s| - 1]] == s[p..];
    }
  }

  lemma InsertKeepsShield(s: seq<Entry>, x: Entry, y: Entry, e: Entry)
    requires Shielded(s, y, e) && x != e
    ensures Shielded(Insert(Before, s, x), y, e)
  {
    var p := InsertSplits(s, x);
    var r := Insert(Before, s, x);
    forall j | 0 <= j < |r| && r[j] == e ensures y in r[..j] {
      var i := if j < p then j else j - 1;
      assert s[i] == e;
      var k :| 0 <= k < i && s[k] == y;
      assert r[if k < p then k else k + 1] == y;
    }
  }

  lemma PrefixKeepsShield(s: seq<Entry>, t: seq<Entry>, y: Entry, e: Entry)
    requires Shielded(s, y, e) && t <= s
    ensures Shielded(t, y, e)
  {
    forall j | 0 <= j < |t| && t[j] == e ensures y in t[..j] {
      assert s[..j] == t[..j];
    }
  }

  lemma {:induction false} RunKeepsShield(p: seq<Entry>, q: seq<Entry>, y: Entry, e: Entry, budget: nat)
    requires Shielded(AddAll(p, budget), y, e) && e !in q
    ensures Shielded(AddAll(p + q, budget), y, e)
    decreases |q|
  {
    if q == [] {
      assert p + q == p;
    } else {
      var front, x := q[..|q| - 1], q[|q| - 1];
      assert p + q == (p + front) + [x];
      RunKeepsShield(p, front, y, e, budget);
      AddsOneMore(p + front, x, budget);
      LevelComesFrom(p + front, budget);
      JoinKeepsShield(AddAll(p + front, budget), x, y, e, budget);
    }
  }

  lemma JoinKeepsShield(s: seq<Entry>, x: Entry, y: Entry, e: Entry, budget: nat)
    requires Sorted(Before, s) && Shielded(s, y, e) && x != e
    ensures Shielded(Joined(s, x, budget), y, e)
  {
    SortInserts(s, x);
    InsertKeepsShield(s, x, y, e);
    FitIsLongest(Insert(Before, s, x), budget);
    PrefixKeepsShield(Insert(Before, s, x), Fit(Insert(Before, s, x), budget), y, e);
  }

  lemma {:induction false} NeverReturns(p: seq<Entry>, q: seq<Entry>, e: Entry, budget: nat)
    requires e !in AddAll(p, budget) && e !in q
    ensures e !in AddAll(p + q, budget)
    decreases |q|
  {
    if q == [] {
      assert p + q == p;
    } else {
      var front, x := q[..|q| - 1], q[|q| - 1];
      assert p + q == (p + front) + [x];
      NeverReturns(p, front, e, budget);
      AddsOneMore(p + front, x, budget);
      LevelComesFrom(p + front, budget);
      var s := AddAll(p + front, budget);
      SortInserts(s, x);
      InsertMembers(s, x);
      FitIsLongest(Insert(Before, s, x), budget);
    }
  }

  /** The level after the first of two entries. */
  lemma AddsFirst(y: Entry, budget: nat)
    ensures AddAll([y], budget) == if |y.content| <= budget then [y] else []
  {
    AddsOneMore([], y, budget);
    assert [] + [y] == [y] && [y][..0] == [];
    InsertAlone(y);
    JoinedInto([], y, [y], budget);
    EmptiedByOversizedFirst([y], budget);
    FitIsLongest([y], budget);
  }

  lemma PairIsShielded(y: Entry, e: Entry, budget: nat)
    requires y != e && Before(y, e) && |y.content| <= budget
    ensures Shielded(AddAll([y, e], budget), y, e)
  {
    AddsFirst(y, budget);
    AddsOneMore([y], e, budget);
    assert [y] + [e] == [y, e];
    JoinedInto([y], e, [y, e], budget);
    FitIsLongest([y, e], budget);
    assert [y, e][..1] == [y];
    assert Shielded([y, e], y, e);
    PrefixKeepsShield([y, e], Fit([y, e], budget), y, e);
  }

  lemma OversizedEmpties(y: Entry, e: Entry, budget: nat)
    requires !Before(e, y) && |y.content| > budget
    ensures AddAll([e, y], budget) == []
  {
    AddsFirst(e, budget);
    AddsOneMore([e], y, budget);
    assert [e] + [y] == [e, y];
    OversizedDrivesOut(y, e, budget);
  }

  lemma OversizedDrivesOut(y: Entry, e: Entry, budget: nat)
    requires !Before(e, y) && |y.content| > budget
    ensures Joined([e], y, budget) == Joined([], y, budget) == []
  {
    InsertAlone(y);
    InsertInFront([], [e], y);
    assert [] + [e] == [e] && [y] + [e] == [y, e];
    JoinedInto([], y, [y], budget);
    JoinedInto([e], y, [y, e], budget);
    EmptiedByOversizedFirst([y], budget);
    EmptiedByOversizedFirst([y, e], budget);
  }

  lemma TwoTakenOut(h: seq<Entry>, x: Entry, y: Entry) returns (rest: seq<Entry>)
    requires Distinct(h) && x in h && y in h && x != y
    ensures multiset([x, y] + rest) == multiset(h) && x !in rest && y !in rest
  {
    var others := TakenOut(h, x);
    assert y in multiset(h);
    assert y in multiset(others);
    rest := TakenOut(others, y);
    assert multiset(h)[x] <= 1 && multiset(h)[y] <= 1;
    assert x !in multiset(rest) && y !in multiset(rest);
  }

  /** If the order is irrelevant, a small enough entry shields every other that it does not rank after. */
  lemma IrrelevantMeansShielded(h: seq<Entry>, y: Entry, e: Entry, budget: nat)
    requires Distinct(h) && OrderIsIrrelevant(h, budget) && y in h && e in h && y != e
    requires Before(y, e) && |y.content| <= budget
    ensures Shielded(AddAll(h, budget), y, e)
  {
    var rest := TwoTakenOut(h, y, e);
    PairIsShielded(y, e, budget);
    RunKeepsShield([y, e], rest, y, e, budget);
    AnyOrder(h, [y, e] + rest, budget);
  }

  /** If the order is irrelevant, an entry that exceeds the budget alone drives out what ranks after it. */
  lemma IrrelevantMeansDrivenOut(h: seq<Entry>, y: Entry, e: Entry, budget: nat)
    requires Distinct(h) && OrderIsIrrelevant(h, budget) && y in h && e in h && y != e
    requires !Before(e, y) && |y.content| > budget
    ensures e !in AddAll(h, budget)
  {
    var rest := TwoTakenOut(h, e, y);
    OversizedEmpties(y, e, budget);
    NeverReturns([e, y], rest, e, budget);
    AnyOrder(h, [e, y] + rest, budget);
  }

  lemma AnyOrder(h: seq<Entry>, t: seq<Entry>, budget: nat)
    requires OrderIsIrrelevant(h, budget) && multiset(t) == multiset(h)
    ensures AddAll(t, budget) == AddAll(h, budget)
  {
  }

  // ---------------------------------------------------------------- without the condition, the order matters

  /** In rank order the level starts with the top. */
  lemma RankOrderKeepsTop(h: seq<Entry>, budget: nat)
    requires Distinct(h) && OrderIsIrrelevant(h, budget)
    ensures Top(h, budget) <= AddAll(h, budget)
  {
    var all, kept := Sort(SmallFirst(budget), h), Top(h, budget);
    RankingOf(h, budget);
    RanksBefore(all, budget);
    assert all == kept + all[|kept|..];
    RankOrderKeepsFirst(kept, all[|kept|..], budget);
  }

  lemma IrrelevantMeansUntied(h: seq<Entry>, budget: nat)
    requires Distinct(h) && OrderIsIrrelevant(h, budget)
    ensures TopIsUntied(h, budget)
  {
    var kept, level := Top(h, budget), AddAll(h, budget);
    TopIsTidy(h, budget);
    RankOrderKeepsTop(h, budget);
    forall k, x | k in kept && x in h && k != x && Tied(Before, k, x) ensures |x.content| > budget {
      if |x.content| <= budget {
        IrrelevantMeansShielded(h, x, k, budget);
        IrrelevantMeansShielded(h, k, x, budget);
        ShieldEachOther(kept, level, k, x);
        assert false;
      }
    }
  }

  lemma ShieldEachOther(kept: seq<Entry>, level: seq<Entry>, k: Entry, x: Entry)
    requires kept <= level && k in kept && Shielded(level, k, x)
    ensures !Shielded(level, x, k)
  {
    var j :| 0 <= j < |kept| && kept[j] == k;
    if Shielded(level, x, k) {
      NoFirstOfTwo(level, x, k, j);
    }
  }

  lemma {:induction false} NoFirstOfTwo(level: seq<Entry>, x: Entry, k: Entry, j: nat)
    requires j < |level| && level[j] == k && Shielded(level, k, x) && Shielded(level, x, k)
    ensures false
    decreases j
  {
    assert x in level[..j];
    var i :| 0 <= i < j && level[i] == x;
    NoFirstOfTwo(level, k, x, i);
  }

  /** The first entry that the top does not hold is not kept in rank order, and what is kept instead ranks
      after it. */
  lemma FirstDroppedIsLost(h: seq<Entry>, budget: nat) returns (y: Entry)
    requires Distinct(h) && OrderIsIrrelevant(h, budget) && |AddAll(h, budget)| > |Top(h, budget)|
    ensures y in h && y !in AddAll(h, budget)
    ensures AddAll(h, budget)[|Top(h, budget)|] in h && RanksSmallFirst(y, AddAll(h, budget)[|Top(h, budget)|], budget)
  {
    var all, kept, level := Sort(SmallFirst(budget), h), Top(h, budget), AddAll(h, budget);
    RankingOf(h, budget);
    RankOrderKeepsTop(h, budget);
    LevelComesFrom(h, budget);
    ComeFrom(level, h);
    SameMembers(all, h);
    assert level[|kept|] in level;
    var i := NextIsLater(all, kept, level);
    y := all[|kept|];
    IsLost(h, all, kept, budget);
    assert i != |kept|;
    assert SmallFirst(budget)(all[|kept|], all[i]);
  }

  lemma NextIsLater(all: seq<Entry>, kept: seq<Entry>, level: seq<Entry>) returns (i: nat)
    requires kept <= all && kept <= level && |kept| < |level| && Distinct(level) && level[|kept|] in all
    ensures |kept| <= i < |all| && all[i] == level[|kept|]
  {
    i :| 0 <= i < |all| && all[i] == level[|kept|];
    if i < |kept| {
      assert level[i] == kept[i] == all[i];
      SamePlace(level, i, |kept|);
    }
  }

  lemma IsLost(h: seq<Entry>, all: seq<Entry>, kept: seq<Entry>, budget: nat)
    requires Sorted(SmallFirst(budget), all) && Distinct(all) && multiset(all) == multiset(h)
    requires kept == Fit(all, budget) && |kept| < |all| && OrderIsIrrelevant(h, budget)
    ensures all[|kept|] !in AddAll(h, budget)
  {
    var k := |kept|;
    RanksBefore(all, budget);
    FitIsLongest(all, budget);
    NotElsewhere(all, k);
    DroppedAtOnce(all, k, budget);
    NeverReturns(all[..k] + [all[k]], all[k + 1..], all[k], budget);
    SplitAt(all, k);
    AnyOrder(h, all, budget);
  }

  lemma SplitAt(s: seq<Entry>, k: nat)
    requires k < |s|
    ensures s == (s[..k] + [s[k]]) + s[k + 1..]
  {
  }

  lemma DroppedAtOnce(all: seq<Entry>, k: nat, budget: nat)
    requires Sorted(Before, all) && k < |all| && Size(all[..k]) <= budget < Size(all[..k + 1])
    ensures AddAll(all[..k] + [all[k]], budget) == all[..k]
  {
    assert all[..k + 1] == all[..k] + [all[k]];
    PrefixKeepsOrder(all, all[..k + 1]);
    PrefixKeepsOrder(all, all[..k]);
    FittingListIsKept(all[..k], budget);
    RankedAddIsGreedy(all[..k], all[k], budget);
    SizeAppend(all[..k], [all[k]]);
    assert [all[k]][..0] == [];
  }

  lemma NotElsewhere(all: seq<Entry>, k: nat)
    requires Distinct(all) && k < |all|
    ensures all[k] !in all[..k] && all[k] !in all[k + 1..]
  {
    if all[k] in all[..k] {
      var i :| 0 <= i < k && all[i] == all[k];
      SamePlace(all, i, k);
    }
    if all[k] in all[k + 1..] {
      var i :| k < i < |all| && all[i] == all[k];
      SamePlace(all, i, k);
    }
  }

  lemma IrrelevantMeansTopOnly(h: seq<Entry>, budget: nat)
    requires Distinct(h) && OrderIsIrrelevant(h, budget)
    ensures AddAll(h, budget) == Top(h, budget)
  {
    var level, k := AddAll(h, budget), |Top(h, budget)|;
    RankOrderKeepsTop(h, budget);
    if |level| > k {
      var y := FirstDroppedIsLost(h, budget);
      var e := level[k];
      LevelComesFrom(h, budget);
      MemberSize(level, e);
      if |y.content| <= budget {
        IrrelevantMeansShielded(h, y, e, budget);
      } else {
        IrrelevantMeansDrivenOut(h, y, e, budget);
      }
      assert false;
    }
  }

  lemma IrrelevantMeansNothingElseFits(h: seq<Entry>, budget: nat)
    requires Distinct(h) && OrderIsIrrelevant(h, budget)
    ensures NothingElseFits(h, budget)
  {
    var all, kept := Sort(SmallFirst(budget), h), Top(h, budget);
    RankingOf(h, budget);
    RanksBefore(all, budget);
    SameMembers(all, h);
    IrrelevantMeansTopOnly(h, budget);
    assert all == kept + all[|kept|..];
    RankOrderKeepsMore(kept, all[|kept|..], budget);
    forall x | x in h && x !in kept ensures Size(kept) + |x.content| > budget {
      assert x in all[|kept|..];
    }
  }

  // ---------------------------------------------------------------- the theorem

  /** Exactly when the order of the adds is irrelevant: when no other entry would fit behind the longest fitting
      prefix of the ranking, and the entries of that prefix tie with none but entries that exceed the budget
      alone. */
  lemma OrderIsIrrelevantExactly(h: seq<Entry>, budget: nat)
    requires Distinct(h)
    ensures OrderIsIrrelevant(h, budget) <==> NothingElseFits(h, budget) && TopIsUntied(h, budget)
  {
    if OrderIsIrrelevant(h, budget) {
      IrrelevantMeansUntied(h, budget);
      IrrelevantMeansNothingElseFits(h, budget);
    } else if NothingElseFits(h, budget) && TopIsUntied(h, budget) {
      forall t | multiset(t) == multiset(h) ensures AddAll(t, budget) == AddAll(h, budget) {
        TopRemains(h, t, budget);
        TopRemains(h, h, budget);
      }
      assert false;
    }
  }

  /** Every order of the same adds to a fresh level leaves the same entries there. */
  ghost predicate RunsAgree(level: Level, h: seq<Entry>) {
    forall t :: multiset(t) == multiset(h) ==> After(Adds(level, t)).storage[level] == After(Adds(level, h)).storage[level]
  }

  /** The same about the runs of the memory manager. */
  lemma RunsAgreeExactly(level: Level, h: seq<Entry>)
    requires Distinct(h)
    ensures RunsAgree(level, h) <==> NothingElseFits(h, Budget(level)) && TopIsUntied(h, Budget(level))
  {
    forall t ensures After(Adds(level, t)).storage[level] == AddAll(t, Budget(level)) {
      AddsLeaveAll(level, t);
    }
    OrderIsIrrelevantExactly(h, Budget(level));
  }

  // ---------------------------------------------------------------- an instance

  /** What survives beyond that depends on the order of the adds: a small entry of low rank
      stays if a larger one of higher rank was dropped before it came, and is dropped with it
      otherwise. */
  lemma OrderOfAddsMatters(a: Entry, b: Entry, c: Entry, budget: nat)
    requires a.importance > b.importance > c.importance
    requires |a.content| + |c.content| <= budget < |a.content| + |b.content|
    ensures Joined(Joined(Joined([], a, budget), b, budget), c, budget) == [a, c]
    ensures Joined(Joined(Joined([], a, budget), c, budget), b, budget) == [a]
  {
    FitOfThree(a, b, c, budget);
    InsertsOfThree(a, b, c);
    JoinedInto([], a, [a], budget);
    JoinedInto([a], b, [a, b], budget);
    JoinedInto([a], c, [a, c], budget);
    JoinedInto([a, c], b, [a, b, c], budget);
  }

  lemma InsertsOfThree(a: Entry, b: Entry, c: Entry)
    requires a.importance > b.importance > c.importance
    ensures Insert(Before, [], a) == [a] && Insert(Before, [a], b) == [a, b] && Insert(Before, [a], c) == [a, c]
    ensures Insert(Before, [a, c], b) == [a, b, c]
    ensures Sorted(Before, [a]) && Sorted(Before, [a, c])
  {
    InsertAlone(a);
    InsertSecond(a, b);
    InsertSecond(a, c);
    InsertAlone(b);
    InsertInFront([], [c], b);
    InsertBehind([a], [c], b);
    assert [a] + [c] == [a, c] && [] + [c] == [c];
    assert [a] + ([b] + [c]) == [a, b, c];
  }

  lemma InsertSecond(a: Entry, b: Entry)
    requires a.importance > b.importance
    ensures Insert(Before, [a], b) == [a, b]
  {
    assert [a] + [b] == [a, b];
  }

  lemma InsertAlone(x: Entry)
    ensures Insert(Before, [], x) == [x]
  {
    assert [] + [x] == [x];
  }

  lemma JoinedInto(s: seq<Entry>, x: Entry, r: seq<Entry>, budget: nat)
    requires Sorted(Before, s) && Insert(Before, s, x) == r
    ensures Joined(s, x, budget) == Fit(r, budget)
  {
    SortInserts(s, x);
  }

  lemma FitOfThree(a: Entry, b: Entry, c: Entry, budget: nat)
    requires |a.content| + |c.content| <= budget < |a.content| + |b.content|
    ensures Fit([a], budget) == [a] && Fit([a, b], budget) == [a] && Fit([a, c], budget) == [a, c]
    ensures Fit([a, b, c], budget) == [a]
  {
    assert [a][..0] == [] && [a, b][..1] == [a] && [a, c][..1] == [a] && [a, b, c][..2] == [a, b];
    assert Size([a]) == |a.content|;
    assert Size([a, b]) == |a.content| + |b.content| && Size([a, c]) == |a.content| + |c.content|;
    assert Size([a, b, c]) == Size([a, b]) + |c.content|;
  }
}
