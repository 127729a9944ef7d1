/** What a memory level holds in terms of its entries' own importance, time and length: its order, its budget, and
    which entries it gives up, after every run of the manager. */
module MemoryRanks {
  import opened StableSort
  import opened MemoryManager

  /** `a` is more important than `b`, or as important and at least as recent. */
  predicate Outranks(a: Entry, b: Entry) {
    a.importance > b.importance || (a.importance == b.importance && a.timestamp >= b.timestamp)
  }

  /** The most important entries come first, and among equally important ones the newest. */
  ghost predicate MostImportantFirst(s: seq<Entry>) {
    forall i, j :: 0 <= i < j < |s| ==>
      && s[i].importance >= s[j].importance
      && (s[i].importance == s[j].importance ==> s[i].timestamp >= s[j].timestamp)
  }

  /** All contents, one after the other. */
  function Text(s: seq<Entry>): seq<CodeUnit> {
    if s == [] then [] else s[0].content + Text(s[1..])
  }

  /** The characters that a level may hold: four for each token of its budget. */
  function Characters(level: Level): nat {
    match level
    case System => 8_000
    case Project => 20_000
    case Mission => 40_000
    case Task => 80_000
  }

  lemma {:induction false} SizeIsLength(s: seq<Entry>)
    ensures Size(s) == |Text(s)|
    decreases |s|
  {
    if s != [] {
      SizeIsLength(s[1..]);
      SizeAppend([s[0]], s[1..]);
      assert s == [s[0]] + s[1..] && [s[0]][..0] == [];
    }
  }

  lemma SortedIsMostImportantFirst(s: seq<Entry>)
    requires Sorted(Before, s)
    ensures MostImportantFirst(s)
  {
    forall i, j | 0 <= i < j < |s|
      ensures s[i].importance >= s[j].importance
      ensures s[i].importance == s[j].importance ==> s[i].timestamp >= s[j].timestamp
    {
      assert Before(s[i], s[j]);
    }
  }

  // ---------------------------------------------------------------- order

  /** After every run every level is in that order. */
  lemma LevelsAreRanked(ops: seq<Op>, level: Level)
    ensures MostImportantFirst(After(ops).storage[level])
  {
    TopEntriesSurvive(ops, level);
    SortedIsMostImportantFirst(After(ops).storage[level]);
  }

  /** Where an entry is inserted: behind everything that ranks no later, before the rest. */
  lemma {:induction false} InsertPlace(s: seq<Entry>, x: Entry) returns (p: nat)
    ensures p <= |s| && Insert(Before, s, x) == (s[..p] + [x]) + s[p..]
    ensures forall i :: p <= i < |s| ==> !Before(s[i], x)
  {
    if s == [] || Before(s[|s| - 1], x) {
      p := |s|;
      assert s[..p] == s && s[p..] == [];
    } else {
      var front := s[..|s| - 1];
      p := InsertPlace(front, x);
      assert front[..p] == s[..p] && front[p..] + [s[|s| - 1]] == s[p..];
    }
  }

  predicate SameRank(a: Entry, b: Entry) {
    a.importance == b.importance && a.timestamp == b.timestamp
  }

  /** Entries of the same importance and time stand in the order in which they were added. */
  ghost predicate ByArrival(history: seq<Entry>, s: seq<Entry>) {
    forall i, j :: 0 <= i < j < |s| && SameRank(s[i], s[j]) ==> StandsBefore(history, s[i], s[j])
  }

  lemma InsertKeepsArrival(history: seq<Entry>, s: seq<Entry>, x: Entry)
    requires ByArrival(history, s) && forall e :: e in s ==> e in history
    ensures ByArrival(history + [x], Insert(Before, s, x))
  {
    var p := InsertPlace(s, x);
    var r := Insert(Before, s, x);
    forall i, j | 0 <= i < j < |r| && SameRank(r[i], r[j]) ensures StandsBefore(history + [x], r[i], r[j]) {
      if j == p {
        assert r[i] == s[i];
        StandsBeforeLast(history, s[i], x);
      } else if i != p {
        var a, b := if i < p then i else i - 1, if j < p then j else j - 1;
        assert r[i] == s[a] && r[j] == s[b];
        StandsBeforeInLonger(history, [x], s[a], s[b]);
      }
    }
  }

  lemma PrefixKeepsArrival(history: seq<Entry>, s: seq<Entry>, t: seq<Entry>)
    requires ByArrival(history, s) && t <= s
    ensures ByArrival(history, t)
  {
  }

  lemma LevelComesFromHistory(ops: seq<Op>, level: Level)
    ensures forall e :: e in After(ops).storage[level] ==> e in History(ops, level)
    ensures Sorted(Before, After(ops).storage[level])
  {
    var s, h := After(ops).storage[level], History(ops, level);
    TopEntriesSurvive(ops, level);
    SortContents(Before, h);
    forall e | e in s ensures e in h {
      assert e in multiset(s);
      assert e in multiset(Sort(Before, h));
      assert e in multiset(h);
    }
  }

  lemma {:induction false} TiesKeepArrival(ops: seq<Op>, level: Level)
    ensures ByArrival(History(ops, level), After(ops).storage[level])
  {
    if ops != [] {
      var before, op := ops[..|ops| - 1], ops[|ops| - 1];
      TiesKeepArrival(before, level);
      LevelComesFromHistory(before, level);
      var h, s := History(before, level), After(before).storage[level];
      if op.Add? && op.level == level {
        SortInserts(s, op.entry);
        InsertKeepsArrival(h, s, op.entry);
        FitIsLongest(Insert(Before, s, op.entry), Budget(level));
        PrefixKeepsArrival(h + [op.entry], Insert(Before, s, op.entry), Fit(Insert(Before, s, op.entry), Budget(level)));
      } else if op.Prune? && op.level == level {
        FitIsLongest(s, Budget(level));
        PrefixKeepsArrival(h, s, Fit(s, Budget(level)));
      }
    }
  }

  // ---------------------------------------------------------------- what is given up

  /** What the level holds before a step prunes it. */
  function Candidates(s: seq<Entry>, op: Op, level: Level): seq<Entry> {
    if op.Add? && op.level == level then s + [op.entry] else s
  }

  /** `kept` and `dropped` are the candidates; what is kept outranks what is dropped and is within the budget, with
      which not even the first of the dropped ones, which outranks the others, is compatible. */
  ghost predicate GivesUp(candidates: seq<Entry>, kept: seq<Entry>, dropped: seq<Entry>, budget: nat) {
    && multiset(candidates) == multiset(kept) + multiset(dropped)
    && (forall k, d :: k in kept && d in dropped ==> Outranks(k, d))
    && |Text(kept)| <= budget
    && (dropped != [] ==>
          && |Text(kept)| + |dropped[0].content| > budget
          && forall d :: d in dropped ==> Outranks(dropped[0], d) || d == dropped[0])
  }

  lemma FitGivesUp(ranked: seq<Entry>, candidates: seq<Entry>, budget: nat)
    requires Sorted(Before, ranked) && multiset(ranked) == multiset(candidates)
    ensures Fit(ranked, budget) <= ranked
    ensures GivesUp(candidates, Fit(ranked, budget), ranked[|Fit(ranked, budget)|..], budget)
  {
    FitIsLongest(ranked, budget);
    FitFits(ranked, budget);
    var kept := Fit(ranked, budget);
    assert ranked == kept + ranked[|kept|..];
    SizeIsLength(kept);
    KeptOutranksDropped(ranked, |kept|);
    if |kept| < |ranked| {
      NextIsTooMuch(ranked, |kept|);
    }
  }

  lemma NextIsTooMuch(ranked: seq<Entry>, n: nat)
    requires n < |ranked|
    ensures Size(ranked[..n + 1]) == Size(ranked[..n]) + |ranked[n].content|
  {
    assert ranked[..n + 1] == ranked[..n] + [ranked[n]];
    SizeAppend(ranked[..n], [ranked[n]]);
    assert [ranked[n]][..0] == [];
  }

  lemma KeptOutranksDropped(ranked: seq<Entry>, n: nat)
    requires Sorted(Before, ranked) && n <= |ranked|
    ensures forall k, d :: k in ranked[..n] && d in ranked[n..] ==> Outranks(k, d)
    ensures forall d :: n < |ranked| && d in ranked[n..] ==> Outranks(ranked[n], d) || d == ranked[n]
  {
    forall k, d | k in ranked[..n] && d in ranked[n..] ensures Outranks(k, d) {
      var i :| 0 <= i < n && ranked[i] == k;
      var j :| n <= j < |ranked| && ranked[j] == d;
      assert Before(ranked[i], ranked[j]);
    }
    forall d | n < |ranked| && d in ranked[n..] ensures Outranks(ranked[n], d) || d == ranked[n] {
      var j :| n <= j < |ranked| && ranked[j] == d;
      assert j == n || Before(ranked[n], ranked[j]);
    }
  }

  /** The level as a step sorts it, before pruning. */
  function Ranking(s: seq<Entry>, op: Op): seq<Entry> {
    if op.Add? then Sort(Before, s + [op.entry]) else s
  }

  lemma RankingIsSorted(s: seq<Entry>, op: Op, level: Level)
    requires Sorted(Before, s) && !op.ClearTask? && op.level == level
    ensures Sorted(Before, Ranking(s, op)) && multiset(Ranking(s, op)) == multiset(Candidates(s, op, level))
  {
    if op.Add? {
      SortInserts(s, op.entry);
      SortContents(Before, s + [op.entry]);
    }
  }

  lemma StepPrunesRanking(ops: seq<Op>, op: Op, level: Level)
    requires !op.ClearTask?
    ensures var s := After(ops).storage[level];
      After(ops + [op]).storage[level] == if op.level == level then Fit(Ranking(s, op), Budget(level)) else s
  {
    assert (ops + [op])[..|ops|] == ops;
  }

  /** After every run, an add or a prune of a level gives up exactly what does not fit, the least important first
      and among equally important entries the oldest; other levels are left alone. */
  lemma StepGivesUpLowest(ops: seq<Op>, op: Op, level: Level) returns (dropped: seq<Entry>)
    requires !op.ClearTask?
    ensures var s, t := After(ops).storage[level], After(ops + [op]).storage[level];
      if op.level == level then GivesUp(Candidates(s, op, level), t, dropped, Characters(level)) else t == s
  {
    dropped := [];
    StepPrunesRanking(ops, op, level);
    if op.level == level {
      var s := After(ops).storage[level];
      var ranked := Ranking(s, op);
      LevelComesFromHistory(ops, level);
      RankingIsSorted(s, op, level);
      FitGivesUp(ranked, Candidates(s, op, level), Budget(level));
      dropped := ranked[|Fit(ranked, Budget(level))|..];
    }
  }

  /** At every moment every level is within its budget. */
  lemma {:induction false} LevelsAreWithinBudget(ops: seq<Op>, level: Level)
    ensures |Text(After(ops).storage[level])| <= Characters(level)
  {
    if ops != [] {
      var before, op := ops[..|ops| - 1], ops[|ops| - 1];
      assert ops == before + [op];
      LevelsAreWithinBudget(before, level);
      if !op.ClearTask? {
        var _ := StepGivesUpLowest(before, op, level);
      }
    }
  }

  /** A clear empties the task level and leaves the others alone. */
  lemma ClearEmptiesTasks(ops: seq<Op>, level: Level)
    ensures After(ops + [ClearTask]).storage[level] == if level == Level.Task then [] else After(ops).storage[level]
  {
    assert (ops + [ClearTask])[..|ops|] == ops;
  }
}
