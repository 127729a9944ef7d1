/** The levels of the hierarchical memory: src/core/memory/memory-manager.ts.

    Each level keeps its entries sorted by importance, then recency, and drops entries from
    the end while it is over its token budget. */
module MemoryManager {
  import opened StableSort

  datatype Level = System | Project | Mission | Task

  /** A UTF-16 code unit: the unit of JavaScript's string length. */
  type CodeUnit = c: int | 0 <= c < 0x1_0000

  datatype Entry = Entry(id: string, content: seq<CodeUnit>, timestamp: int, importance: real)

  function TokenBudget(level: Level): nat {
    match level
    case System => 2000
    case Project => 5000
    case Mission => 10000
    case Task => 20000
  }

  /** A token is estimated at four characters; this is the budget in characters. */
  function Budget(level: Level): nat {
    4 * TokenBudget(level)
  }

  /** `b.importance - a.importance || b.timestamp - a.timestamp`, as "not after". */
  predicate Before(a: Entry, b: Entry) {
    a.importance > b.importance || (a.importance == b.importance && a.timestamp >= b.timestamp)
  }

  /** The characters in a list of entries. */
  function Size(s: seq<Entry>): nat {
    if s == [] then 0 else Size(s[..|s| - 1]) + |s[|s| - 1].content|
  }

  function Ids(s: seq<Entry>): set<string> {
    set e | e in s :: e.id
  }

  // ---------------------------------------------------------------------------
  // Pruning
  // ---------------------------------------------------------------------------

  /** What is left after dropping last entries until the rest fits. */
  function Fit(s: seq<Entry>, budget: nat): seq<Entry> {
    if Size(s) <= budget then s else Fit(s[..|s| - 1], budget)
  }

  lemma {:induction false} SizeAppend(a: seq<Entry>, b: seq<Entry>)
    ensures Size(a + b) == Size(a) + Size(b)
  {
    if b == [] {
      assert a + b == a;
    } else {
      SizeAppend(a, b[..|b| - 1]);
      assert (a + b)[..|a + b| - 1] == a + b[..|b| - 1];
    }
  }

  lemma PrefixIsSmaller(s: seq<Entry>, k: nat)
    requires k <= |s|
    ensures Size(s[..k]) <= Size(s)
  {
    assert s == s[..k] + s[k..];
    SizeAppend(s[..k], s[k..]);
  }

  /** Pruning keeps the longest prefix that fits: a prefix fits exactly when it is no longer
      than what is kept. */
  lemma {:induction false} FitIsLongest(s: seq<Entry>, budget: nat)
    ensures Fit(s, budget) <= s
    ensures forall k :: 0 <= k <= |s| ==> (Size(s[..k]) <= budget <==> k <= |Fit(s, budget)|)
  {
    if Size(s) <= budget {
      forall k | 0 <= k <= |s| ensures Size(s[..k]) <= budget {
        PrefixIsSmaller(s, k);
      }
    } else {
      var front := s[..|s| - 1];
      FitIsLongest(front, budget);
      assert s[..|s|] == s;
      forall k | 0 <= k < |s| ensures Size(s[..k]) <= budget <==> k <= |Fit(s, budget)| {
        assert s[..k] == front[..k];
      }
    }
  }

  /** A prefix that fits is kept. */
  lemma FitKeeps(s: seq<Entry>, p: seq<Entry>, budget: nat)
    requires p <= s && Size(p) <= budget
    ensures p <= Fit(s, budget)
  {
    FitIsLongest(s, budget);
    assert p == s[..|p|];
  }

  lemma FitFits(s: seq<Entry>, budget: nat)
    ensures Size(Fit(s, budget)) <= budget
  {
    FitIsLongest(s, budget);
    assert Fit(s, budget) == s[..|Fit(s, budget)|];
  }

  /** A level is emptied exactly when its first entry alone is over the budget, so one
      oversized entry of the highest rank drives out all the others and itself. */
  lemma EmptiedByOversizedFirst(s: seq<Entry>, budget: nat)
    requires s != []
    ensures Fit(s, budget) == [] <==> |s[0].content| > budget
  {
    FitIsLongest(s, budget);
    assert s[..1] == [s[0]] && [s[0]][..0] == [];
    assert Size(s[..1]) == |s[0].content|;
  }

  // ---------------------------------------------------------------------------
  // The manager's state as a value
  // ---------------------------------------------------------------------------

  datatype Memory = Memory(storage: map<Level, seq<Entry>>, memories: map<string, Level>)

  predicate Complete(m: Memory) {
    forall l: Level :: l in m.storage
  }

  function Pruned(m: Memory, level: Level): Memory
    requires Complete(m)
  {
    var kept := Fit(m.storage[level], Budget(level));
    FitIsLongest(m.storage[level], Budget(level));
    Memory(m.storage[level := kept], m.memories - Ids(m.storage[level][|kept|..]))
  }

  function Added(m: Memory, level: Level, e: Entry): Memory
    requires Complete(m)
  {
    Pruned(Memory(m.storage[level := Sort(Before, m.storage[level] + [e])], m.memories[e.id := level]), level)
  }

  function Cleared(m: Memory): Memory
    requires Complete(m)
  {
    Memory(m.storage[Task := []], m.memories - Ids(m.storage[Task]))
  }

  class MemoryManager {
    var storage: map<Level, seq<Entry>>
    var memories: map<string, Level>

    ghost function View(): Memory
      reads this
    {
      Memory(storage, memories)
    }

    constructor ()
      ensures View() == EMPTY
    {
      storage := map[System := [], Project := [], Mission := [], Task := []];
      memories := map[];
    }

    method Add(level: Level, entry: Entry)
      requires Complete(View())
      modifies this
      ensures View() == Added(old(View()), level, entry)
    {
      storage := storage[level := storage[level] + [entry]];
      memories := memories[entry.id := level];
      storage := storage[level := Sort(Before, storage[level])];
      assert View() == Memory(old(storage)[level := Sort(Before, old(storage)[level] + [entry])],
                              old(memories)[entry.id := level]);
      Prune(level);
    }

    /** Sizes are the source's token estimates: a quarter of a token for each character. */
    method Prune(level: Level)
      requires Complete(View())
      modifies this
      ensures View() == Pruned(old(View()), level)
    {
      var budget := TokenBudget(level) as real;
      var s := storage[level];
      var entries := s;
      var currentSize := Estimate(entries);
      assert s[..|s|] == s;
      while currentSize > budget && |entries| > 0
        invariant |entries| <= |s| && entries == s[..|entries|]
        invariant storage == old(storage)[level := entries]
        invariant memories == old(memories) - Ids(s[|entries|..])
        invariant currentSize == Tokens(entries)
        invariant Fit(entries, Budget(level)) == Fit(s, Budget(level))
        decreases |entries|
      {
        var n := |entries| - 1;
        var removed := entries[n];
        PopsLast(s, n, level);
        DropsOneId(old(memories), s, n);
        entries := entries[..n];
        storage := storage[level := entries];
        memories := memories - {removed.id};
        currentSize := currentSize - |removed.content| as real / 4.0;
      }
      OverBudget(entries, level);
    }

    method ClearTaskMemory()
      requires Complete(View())
      modifies this
      ensures View() == Cleared(old(View()))
    {
      var entries := storage[Task];
      for i := 0 to |entries|
        invariant storage == old(storage)
        invariant memories == old(memories) - Ids(entries[..i])
      {
        assert entries[..i + 1] == entries[..i] + [entries[i]];
        assert Ids(entries[..i + 1]) == Ids(entries[..i]) + {entries[i].id};
        memories := memories - {entries[i].id};
      }
      assert entries[..|entries|] == entries;
      storage := storage[Task := []];
    }
  }

  const EMPTY := Memory(map[System := [], Project := [], Mission := [], Task := []], map[])

  /** The token estimate of a list. */
  method Estimate(s: seq<Entry>) returns (tokens: real)
    ensures tokens == Tokens(s)
  {
    tokens := 0.0;
    for i := 0 to |s|
      invariant tokens == Tokens(s[..i])
    {
      assert s[..i + 1][..i] == s[..i];
      tokens := tokens + |s[i].content| as real / 4.0;
    }
    assert s[..|s|] == s;
  }

  /** A quarter of a token for each character. */
  function Tokens(s: seq<Entry>): real {
    Size(s) as real / 4.0
  }

  lemma OverBudget(s: seq<Entry>, level: Level)
    ensures Tokens(s) > TokenBudget(level) as real <==> Size(s) > Budget(level)
  {
  }

  lemma PopsLast(s: seq<Entry>, n: nat, level: Level)
    requires n < |s|
    ensures s[..n + 1][..n] == s[..n] && s[..n + 1][n] == s[n]
    ensures Tokens(s[..n + 1]) == Tokens(s[..n]) + |s[n].content| as real / 4.0
    ensures Tokens(s[..n + 1]) > TokenBudget(level) as real
        ==> Fit(s[..n + 1], Budget(level)) == Fit(s[..n], Budget(level))
  {
    assert s[..n + 1][..n] == s[..n];
    OverBudget(s[..n + 1], level);
  }

  lemma DropsOneId(index: map<string, Level>, s: seq<Entry>, n: nat)
    requires n < |s|
    ensures index - Ids(s[n + 1..]) - {s[n].id} == index - Ids(s[n..])
  {
    assert s[n..] == [s[n]] + s[n + 1..];
    assert Ids(s[n..]) == Ids(s[n + 1..]) + {s[n].id};
  }

  // ---------------------------------------------------------------------------
  // Every run
  // ---------------------------------------------------------------------------

  ghost predicate DistinctIds(s: seq<Entry>) {
    forall i, j :: 0 <= i < j < |s| ==> s[i].id != s[j].id
  }

  ghost predicate Tidy(s: seq<Entry>) {
    Sorted(Before, s) && DistinctIds(s)
  }

  ghost predicate IdStored(m: Memory, id: string)
    requires Complete(m)
  {
    id in m.memories && id in Ids(m.storage[m.memories[id]])
  }

  ghost predicate Indexed(m: Memory)
    requires Complete(m)
  {
    && (forall id :: id in m.memories ==> IdStored(m, id))
    && (forall l: Level, e :: e in m.storage[l] ==> e.id in m.memories && m.memories[e.id] == l)
  }

  /** Each level is sorted and within budget; the index names exactly the stored entries,
      each once, with its level. */
  ghost predicate Consistent(m: Memory) {
    && Complete(m)
    && (forall l: Level :: Tidy(m.storage[l]) && Size(m.storage[l]) <= Budget(l))
    && Indexed(m)
  }

  datatype Op =
    | Add(level: Level, entry: Entry)
    | Prune(level: Level)
    | ClearTask

  lemma EmptyIsComplete()
    ensures Complete(EMPTY)
  {
    forall l: Level ensures l in EMPTY.storage {
      match l case System => case Project => case Mission => case Task =>
    }
  }

  function Step(m: Memory, op: Op): Memory
    requires Complete(m)
  {
    match op
    case Add(level, e) => Added(m, level, e)
    case Prune(level) => Pruned(m, level)
    case ClearTask => Cleared(m)
  }

  function After(ops: seq<Op>): (m: Memory)
    ensures Complete(m)
  {
    if ops == [] then assert Complete(EMPTY) by { EmptyIsComplete(); } EMPTY else Step(After(ops[..|ops| - 1]), ops[|ops| - 1])
  }

  /** Every added id is new to the index. */
  ghost predicate FreshIds(ops: seq<Op>) {
    forall i :: 0 <= i < |ops| && ops[i].Add? ==> ops[i].entry.id !in After(ops[..i]).memories
  }

  /** The entries added to a level since it was last cleared, in the order of the adds. */
  function History(ops: seq<Op>, level: Level): seq<Entry> {
    if ops == [] then [] else Extended(History(ops[..|ops| - 1], level), ops[|ops| - 1], level)
  }

  function Extended(h: seq<Entry>, op: Op, level: Level): seq<Entry> {
    match op
    case Add(l, e) => if l == level then h + [e] else h
    case Prune(_) => h
    case ClearTask => if level == Task then [] else h
  }

  lemma PrefixKeepsOrder(s: seq<Entry>, t: seq<Entry>)
    requires t <= s
    ensures Sorted(Before, s) ==> Sorted(Before, t)
    ensures DistinctIds(s) ==> DistinctIds(t)
  {
  }

  lemma DropKeepsIndexed(m: Memory, level: Level, n: nat)
    requires Complete(m) && Indexed(m) && n <= |m.storage[level]| && DistinctIds(m.storage[level])
    ensures Indexed(Memory(m.storage[level := m.storage[level][..n]], m.memories - Ids(m.storage[level][n..])))
  {
    var s := m.storage[level];
    var r := Memory(m.storage[level := s[..n]], m.memories - Ids(s[n..]));
    assert s == s[..n] + s[n..];
    forall l: Level, e | e in r.storage[l] ensures e.id in r.memories && r.memories[e.id] == l {
      assert e in m.storage[l];
      if l == level {
        KeptIdIsNotDropped(s, n, e);
      } else {
        OtherIdIsNotDropped(m, level, l, e, s[n..]);
      }
    }
    forall id | id in r.memories ensures IdStored(r, id) {
      assert IdStored(m, id);
    }
  }

  /** All but the budget of one level holds. */
  ghost predicate Overfull(m: Memory, level: Level) {
    && Complete(m)
    && (forall l: Level :: Tidy(m.storage[l]))
    && (forall l: Level :: l != level ==> Size(m.storage[l]) <= Budget(l))
    && Indexed(m)
  }

  lemma FitKeepsTidy(s: seq<Entry>, budget: nat)
    requires Tidy(s)
    ensures Tidy(Fit(s, budget)) && Size(Fit(s, budget)) <= budget
    ensures Fit(s, budget) <= s && Fit(s, budget) == s[..|Fit(s, budget)|]
  {
    FitIsLongest(s, budget);
    FitFits(s, budget);
    PrefixKeepsOrder(s, Fit(s, budget));
  }

  lemma RestoredLevel(m: Memory, level: Level, r: Memory)
    requires Overfull(m, level) && Complete(r) && Indexed(r)
    requires r.storage == m.storage[level := r.storage[level]]
    requires Tidy(r.storage[level]) && Size(r.storage[level]) <= Budget(level)
    ensures Consistent(r)
  {
  }

  /** Pruning restores the budget and keeps the rest. */
  lemma PruneKeepsConsistent(m: Memory, level: Level)
    requires Overfull(m, level)
    ensures Consistent(Pruned(m, level))
  {
    var s := m.storage[level];
    var n := |Fit(s, Budget(level))|;
    FitKeepsTidy(s, Budget(level));
    DropKeepsIndexed(m, level, n);
    RestoredLevel(m, level, Memory(m.storage[level := s[..n]], m.memories - Ids(s[n..])));
  }

  lemma KeptIdIsNotDropped(s: seq<Entry>, n: nat, e: Entry)
    requires DistinctIds(s) && n <= |s| && e in s[..n]
    ensures e.id !in Ids(s[n..])
  {
  }

  lemma OtherIdIsNotDropped(m: Memory, level: Level, l: Level, e: Entry, dropped: seq<Entry>)
    requires Complete(m) && l != level && e in m.storage[l]
    requires forall d :: d in dropped ==> d in m.storage[level]
    requires Indexed(m)
    ensures e.id !in Ids(dropped)
  {
  }

  lemma BeforeIsTotal()
    ensures TotalPreorder(Before)
  {
  }

  lemma {:induction false} InsertKeepsDistinct(s: seq<Entry>, e: Entry)
    requires DistinctIds(s) && e.id !in Ids(s)
    ensures DistinctIds(Insert(Before, s, e)) && Ids(Insert(Before, s, e)) == Ids(s) + {e.id}
  {
    if s == [] || Before(s[|s| - 1], e) {
    } else {
      var front, last := s[..|s| - 1], s[|s| - 1];
      assert s == front + [last];
      assert Ids(s) == Ids(front) + {last.id};
      InsertKeepsDistinct(front, e);
      var r := Insert(Before, front, e);
      assert last.id !in Ids(front) by { LastIdIsNew(s); }
      AppendKeepsDistinct(r, last);
    }
  }

  lemma LastIdIsNew(s: seq<Entry>)
    requires DistinctIds(s) && s != []
    ensures s[|s| - 1].id !in Ids(s[..|s| - 1])
  {
  }

  lemma AppendKeepsDistinct(s: seq<Entry>, e: Entry)
    requires DistinctIds(s) && e.id !in Ids(s)
    ensures DistinctIds(s + [e]) && Ids(s + [e]) == Ids(s) + {e.id}
  {
    forall i | 0 <= i < |s| ensures s[i].id != e.id {
      assert s[i].id in Ids(s);
    }
  }

  /** A sorted list takes a new entry by insertion. */
  lemma SortInserts(s: seq<Entry>, e: Entry)
    requires Sorted(Before, s)
    ensures Sort(Before, s + [e]) == Insert(Before, s, e)
    ensures Sorted(Before, Sort(Before, s + [e]))
  {
    BeforeIsTotal();
    SortedIsFixed(Before, s);
    assert (s + [e])[..|s|] == s;
    SortIsStableSort(Before, s + [e]);
  }

  lemma AddKeepsIndexed(m: Memory, level: Level, e: Entry, s: seq<Entry>)
    requires Complete(m) && Indexed(m) && e.id !in m.memories
    requires multiset(s) == multiset(m.storage[level]) + multiset{e}
    requires Ids(s) == Ids(m.storage[level]) + {e.id}
    ensures Indexed(Memory(m.storage[level := s], m.memories[e.id := level]))
  {
    var r := Memory(m.storage[level := s], m.memories[e.id := level]);
    forall l: Level, d | d in r.storage[l] ensures d.id in r.memories && r.memories[d.id] == l {
      if l == level {
        assert d in multiset(s);
        assert d == e || d in m.storage[level];
      } else {
        assert d.id != e.id;
      }
    }
    forall id | id in r.memories ensures IdStored(r, id) {
      if id != e.id { assert IdStored(m, id); }
    }
  }

  lemma InsertKeepsTidy(s: seq<Entry>, e: Entry)
    requires Tidy(s) && e.id !in Ids(s)
    ensures
      var t := Sort(Before, s + [e]);
      Tidy(t) && multiset(t) == multiset(s) + multiset{e} && Ids(t) == Ids(s) + {e.id}
  {
    SortInserts(s, e);
    InsertKeepsDistinct(s, e);
    InsertContents(Before, s, e);
  }

  lemma InsertKeepsMost(m: Memory, level: Level, e: Entry, t: seq<Entry>)
    requires Consistent(m) && e.id !in m.memories
    requires Tidy(t) && multiset(t) == multiset(m.storage[level]) + multiset{e} && Ids(t) == Ids(m.storage[level]) + {e.id}
    ensures Overfull(Memory(m.storage[level := t], m.memories[e.id := level]), level)
  {
    AddKeepsIndexed(m, level, e, t);
  }

  lemma UnknownIdIsNotStored(m: Memory, level: Level, id: string)
    requires Complete(m) && Indexed(m) && id !in m.memories
    ensures id !in Ids(m.storage[level])
  {
  }

  lemma AddKeepsConsistent(m: Memory, level: Level, e: Entry)
    requires Consistent(m) && e.id !in m.memories
    ensures Consistent(Added(m, level, e))
  {
    var t := Sort(Before, m.storage[level] + [e]);
    UnknownIdIsNotStored(m, level, e.id);
    InsertKeepsTidy(m.storage[level], e);
    InsertKeepsMost(m, level, e, t);
    PruneKeepsConsistent(Memory(m.storage[level := t], m.memories[e.id := level]), level);
  }

  lemma ClearKeepsConsistent(m: Memory)
    requires Consistent(m)
    ensures Consistent(Cleared(m))
  {
    var r := Cleared(m);
    forall l: Level, e | e in r.storage[l] ensures e.id in r.memories && r.memories[e.id] == l {
      OtherIdIsNotDropped(m, Task, l, e, m.storage[Task]);
    }
    forall id | id in r.memories ensures IdStored(r, id) {
      assert IdStored(m, id);
    }
  }

  /** After every run of adds with fresh ids, prunes and task clears, each level is sorted by
      importance then recency and within budget, and the index names exactly the entries. */
  lemma {:induction false} RunKeepsConsistent(ops: seq<Op>)
    requires FreshIds(ops)
    ensures Consistent(After(ops))
  {
    if ops != [] {
      var before, op := ops[..|ops| - 1], ops[|ops| - 1];
      forall i | 0 <= i < |before| ensures before[..i] == ops[..i] { }
      RunKeepsConsistent(before);
      match op {
        case Add(level, e) => AddKeepsConsistent(After(before), level, e);
        case Prune(level) => PruneKeepsConsistent(After(before), level);
        case ClearTask => ClearKeepsConsistent(After(before));
      }
    }
  }

  // ---------------------------------------------------------------------------
  // What survives a run
  // ---------------------------------------------------------------------------

  lemma {:induction false} InsertInFront(a: seq<Entry>, b: seq<Entry>, x: Entry)
    requires forall e :: e in b ==> !Before(e, x)
    ensures Insert(Before, a + b, x) == Insert(Before, a, x) + b
  {
    if b == [] {
      assert a + b == a;
      assert Insert(Before, a, x) + b == Insert(Before, a, x);
    } else {
      var front := b[..|b| - 1];
      assert (a + b)[..|a + b| - 1] == a + front;
      InsertInFront(a, front, x);
      assert b == front + [b[|b| - 1]];
      assert (Insert(Before, a, x) + front) + [b[|b| - 1]] == Insert(Before, a, x) + b;
    }
  }

  lemma {:induction false} InsertBehind(a: seq<Entry>, b: seq<Entry>, x: Entry)
    requires a == [] || Before(a[|a| - 1], x)
    ensures Insert(Before, a + b, x) == a + Insert(Before, b, x)
  {
    if b == [] {
      assert a + b == a;
    } else if Before(b[|b| - 1], x) {
      assert (a + b)[|a + b| - 1] == b[|b| - 1];
      assert a + b + [x] == a + (b + [x]);
    } else {
      assert (a + b)[..|a + b| - 1] == a + b[..|b| - 1];
      assert (a + b)[|a + b| - 1] == b[|b| - 1];
      InsertBehind(a, b[..|b| - 1], x);
    }
  }

  /** `level` is a thinned-out `all` that still starts with everything of `all` that fits. */
  ghost predicate Covers(all: seq<Entry>, level: seq<Entry>, budget: nat) {
    && Sorted(Before, all) && Sorted(Before, level)
    && Fit(all, budget) <= level
    && multiset(level) <= multiset(all)
  }

  lemma InsertKeepsOrder(s: seq<Entry>, x: Entry)
    requires Sorted(Before, s)
    ensures Sorted(Before, Insert(Before, s, x))
  {
    BeforeIsTotal();
    InsertSorted(Before, s, x);
  }

  /** Nothing longer than `k` plus one entry fits, so the kept part of `k + rest` with one
      entry added is no longer than `k` and that entry. */
  lemma FitIsShort(k: seq<Entry>, s: seq<Entry>, budget: nat)
    requires |s| > |k| ==> Size(s[..|k| + 1]) > budget
    ensures |Fit(s, budget)| <= |k|
  {
    FitIsLongest(s, budget);
  }

  lemma SubListStartsLater(rest: seq<Entry>, sub: seq<Entry>, x: Entry)
    requires Sorted(Before, rest) && multiset(sub) <= multiset(rest)
    requires rest != [] ==> !Before(rest[0], x)
    ensures forall e :: e in sub ==> !Before(e, x)
  {
    forall e | e in sub ensures !Before(e, x) {
      assert e in multiset(sub);
      assert e in multiset(rest);
      var i :| 0 <= i < |rest| && rest[i] == e;
      assert i == 0 || Before(rest[0], rest[i]);
    }
  }

  /** The new entry ranks inside the part that fits. */
  lemma InsertedInside(kept: seq<Entry>, rest: seq<Entry>, extra: seq<Entry>, x: Entry, budget: nat)
    requires Sorted(Before, kept + rest) && Sorted(Before, kept + extra)
    requires Fit(kept + rest, budget) == kept && kept != [] && !Before(kept[|kept| - 1], x)
    ensures Fit(Insert(Before, kept + rest, x), budget) <= Insert(Before, kept + extra, x)
  {
    RestRanksBehind(kept, rest, x);
    RestRanksBehind(kept, extra, x);
    InsertInFront(kept, rest, x);
    InsertInFront(kept, extra, x);
    InsertedTopIsEnough(kept, rest, x, budget);
  }

  lemma RestRanksBehind(kept: seq<Entry>, rest: seq<Entry>, x: Entry)
    requires Sorted(Before, kept + rest) && kept != [] && !Before(kept[|kept| - 1], x)
    ensures forall e :: e in rest ==> !Before(e, x)
  {
    forall e | e in rest ensures !Before(e, x) {
      var i :| 0 <= i < |rest| && rest[i] == e;
      assert Before((kept + rest)[|kept| - 1], (kept + rest)[|kept| + i]);
    }
  }

  lemma InsertedTopIsEnough(kept: seq<Entry>, rest: seq<Entry>, x: Entry, budget: nat)
    requires Fit(kept + rest, budget) == kept
    ensures Fit(Insert(Before, kept, x) + rest, budget) <= Insert(Before, kept, x)
  {
    var top := Insert(Before, kept, x);
    InsertContents(Before, kept, x);
    InsertSize(kept, x);
    if rest != [] {
      FirstDroppedIsTooMuch(kept, rest, budget);
      assert (top + rest)[..|top| + 1] == top + [rest[0]];
      SizeAppend(top, [rest[0]]);
      SizeAppend(kept, [rest[0]]);
    }
    FitIsShort(top, top + rest, budget);
    FitIsLongest(top + rest, budget);
  }

  lemma FirstDroppedIsTooMuch(kept: seq<Entry>, rest: seq<Entry>, budget: nat)
    requires Fit(kept + rest, budget) == kept && rest != []
    ensures Size(kept + [rest[0]]) > budget
  {
    FitIsLongest(kept + rest, budget);
    assert (kept + rest)[..|kept| + 1] == kept + [rest[0]];
  }

  lemma {:induction false} InsertSize(s: seq<Entry>, x: Entry)
    ensures Size(Insert(Before, s, x)) == Size(s) + |x.content|
  {
    if s == [] || Before(s[|s| - 1], x) {
      assert (s + [x])[..|s|] == s;
    } else {
      InsertSize(s[..|s| - 1], x);
      var r := Insert(Before, s[..|s| - 1], x);
      assert (r + [s[|s| - 1]])[..|r|] == r;
    }
  }

  /** The new entry ranks after an entry that does not fit. */
  lemma InsertedFarBehind(kept: seq<Entry>, rest: seq<Entry>, x: Entry, budget: nat)
    requires Fit(kept + rest, budget) == kept && (kept == [] || Before(kept[|kept| - 1], x))
    requires rest != [] && Before(rest[0], x)
    ensures Fit(Insert(Before, kept + rest, x), budget) <= kept
  {
    assert [rest[0]] + rest[1..] == rest;
    InsertBehind(kept, rest, x);
    InsertBehind([rest[0]], rest[1..], x);
    var all := kept + ([rest[0]] + Insert(Before, rest[1..], x));
    assert all[..|kept| + 1] == kept + [rest[0]];
    FirstDroppedIsTooMuch(kept, rest, budget);
    FitIsShort(kept, all, budget);
    FitIsLongest(all, budget);
  }

  lemma InsertedBetween(kept: seq<Entry>, rest: seq<Entry>, x: Entry)
    requires kept == [] || Before(kept[|kept| - 1], x)
    requires forall e :: e in rest ==> !Before(e, x)
    ensures Insert(Before, kept + rest, x) == (kept + [x]) + rest
  {
    InsertInFront(kept, rest, x);
  }

  lemma TwoMoreAreTooMuch(kept: seq<Entry>, rest: seq<Entry>, x: Entry, budget: nat)
    requires Fit(kept + rest, budget) == kept
    ensures Fit((kept + [x]) + rest, budget) <= kept + [x]
  {
    var all := (kept + [x]) + rest;
    if rest != [] {
      assert all[..|kept| + 2] == (kept + [x]) + [rest[0]];
      FirstDroppedIsTooMuch(kept, rest, budget);
      SizeAppend(kept + [x], [rest[0]]);
      SizeAppend(kept, [x]);
      SizeAppend(kept, [rest[0]]);
    }
    FitIsShort(kept + [x], all, budget);
    FitIsLongest(all, budget);
  }

  /** The new entry ranks after the part that fits. */
  lemma InsertedBehind(kept: seq<Entry>, rest: seq<Entry>, extra: seq<Entry>, x: Entry, budget: nat)
    requires Sorted(Before, rest) && multiset(extra) <= multiset(rest)
    requires Fit(kept + rest, budget) == kept && (kept == [] || Before(kept[|kept| - 1], x))
    ensures Fit(Insert(Before, kept + rest, x), budget) <= Insert(Before, kept + extra, x)
  {
    if rest != [] && Before(rest[0], x) {
      InsertedFarBehind(kept, rest, x, budget);
      InsertBehind(kept, extra, x);
    } else {
      SubListStartsLater(rest, extra, x);
      SubListStartsLater(rest, rest, x);
      InsertedBetween(kept, rest, x);
      InsertedBetween(kept, extra, x);
      TwoMoreAreTooMuch(kept, rest, x, budget);
    }
  }

  lemma ExtraIsContained(kept: seq<Entry>, extra: seq<Entry>, rest: seq<Entry>)
    requires multiset(kept + extra) <= multiset(kept + rest)
    ensures multiset(extra) <= multiset(rest)
  {
    forall e ensures multiset(extra)[e] <= multiset(rest)[e] {
      assert multiset(kept + extra)[e] == multiset(kept)[e] + multiset(extra)[e];
      assert multiset(kept + rest)[e] == multiset(kept)[e] + multiset(rest)[e];
    }
  }

  lemma InsertedAnywhere(kept: seq<Entry>, rest: seq<Entry>, extra: seq<Entry>, x: Entry, budget: nat)
    requires Sorted(Before, kept + rest) && Sorted(Before, kept + extra)
    requires Fit(kept + rest, budget) == kept && multiset(kept + extra) <= multiset(kept + rest)
    ensures Fit(Insert(Before, kept + rest, x), budget) <= Insert(Before, kept + extra, x)
  {
    if kept == [] || Before(kept[|kept| - 1], x) {
      forall i, j | 0 <= i < j < |rest| ensures Before(rest[i], rest[j]) {
        assert Before((kept + rest)[|kept| + i], (kept + rest)[|kept| + j]);
      }
      ExtraIsContained(kept, extra, rest);
      InsertedBehind(kept, rest, extra, x, budget);
    } else {
      InsertedInside(kept, rest, extra, x, budget);
    }
  }

  lemma InsertKeepsContained(all: seq<Entry>, level: seq<Entry>, x: Entry)
    requires multiset(level) <= multiset(all)
    ensures multiset(Insert(Before, level, x)) <= multiset(Insert(Before, all, x))
  {
    InsertContents(Before, all, x);
    InsertContents(Before, level, x);
  }

  lemma InsertKeepsTop(all: seq<Entry>, level: seq<Entry>, x: Entry, budget: nat)
    requires Covers(all, level, budget)
    ensures Fit(Insert(Before, all, x), budget) <= Insert(Before, level, x)
  {
    var kept := Fit(all, budget);
    FitIsLongest(all, budget);
    assert all == kept + all[|kept|..] && level == kept + level[|kept|..];
    InsertedAnywhere(kept, all[|kept|..], level[|kept|..], x, budget);
  }

  /** Adding the same entry to both keeps the relation, although only `level` is pruned. */
  lemma AddKeepsCover(all: seq<Entry>, level: seq<Entry>, x: Entry, budget: nat)
    requires Covers(all, level, budget)
    ensures Covers(Insert(Before, all, x), Fit(Insert(Before, level, x), budget), budget)
  {
    InsertKeepsTop(all, level, x, budget);
    InsertKeepsOrder(all, x);
    InsertKeepsOrder(level, x);
    InsertKeepsContained(all, level, x);
    PruneKeepsCover(Insert(Before, all, x), Insert(Before, level, x), budget);
  }

  lemma PruneKeepsCover(all: seq<Entry>, level: seq<Entry>, budget: nat)
    requires Covers(all, level, budget)
    ensures Covers(all, Fit(level, budget), budget)
  {
    FitFits(all, budget);
    FitKeeps(level, Fit(all, budget), budget);
    FitIsLongest(level, budget);
    PrefixKeepsOrder(level, Fit(level, budget));
    PrefixIsContained(level, Fit(level, budget));
  }

  lemma PrefixIsContained(s: seq<Entry>, t: seq<Entry>)
    requires t <= s
    ensures multiset(t) <= multiset(s)
  {
    assert s == t + s[|t|..];
  }

  lemma SortExtends(h: seq<Entry>, e: Entry)
    ensures Sort(Before, h + [e]) == Insert(Before, Sort(Before, h), e)
  {
    assert (h + [e])[..|h|] == h;
  }

  lemma StepKeepsCover(h: seq<Entry>, m: Memory, op: Op, level: Level)
    requires Complete(m) && Covers(Sort(Before, h), m.storage[level], Budget(level))
    ensures Covers(Sort(Before, Extended(h, op, level)), Step(m, op).storage[level], Budget(level))
  {
    var all, s := Sort(Before, h), m.storage[level];
    if op.Add? && op.level == level {
      SortInserts(s, op.entry);
      AddKeepsCover(all, s, op.entry, Budget(level));
      SortExtends(h, op.entry);
    } else if op.Prune? && op.level == level {
      PruneKeepsCover(all, s, Budget(level));
    }
  }

  /** Pruning early never costs an entry that pruning once at the end would keep: after every
      run a level starts with the longest fitting prefix of all that was added to it, sorted. */
  lemma {:induction false} TopEntriesSurvive(ops: seq<Op>, level: Level)
    ensures Covers(Sort(Before, History(ops, level)), After(ops).storage[level], Budget(level))
  {
    if ops != [] {
      var before, op := ops[..|ops| - 1], ops[|ops| - 1];
      TopEntriesSurvive(before, level);
      StepKeepsCover(History(before, level), After(before), op, level);
    }
  }
}
