/** What a progress check reports and what a snapshot lists, in terms of the checks and todos that led to it. */
module ProgressReports {
  import opened Prelude
  import opened StableSort
  import opened ProgressTracker

  // ---------------------------------------------------------------- reports

  /** The check after `trace` finds fewer incomplete todos than the one before it. */
  predicate FindsFewer(trace: seq<Event>, incomplete: int) {
    LastCount(trace).Some? && incomplete < LastCount(trace).value
  }

  /** It finds other todos than the last check that was given any, with a check to compare with. */
  ghost predicate FindsOther(trace: seq<Event>, todos: Option<seq<NormalizedTodo>>) {
    && LastCount(trace).Some? && todos.Some? && LastTodos(trace).Some?
    && multiset(todos.value) != multiset(LastTodos(trace).value)
  }

  ghost predicate Comparable(leq: (string, string) -> bool, trace: seq<Event>, todos: Option<seq<NormalizedTodo>>) {
    TotalOrder(leq) && ClashFree(trace) && (todos.Some? ==> !Clashes(todos.value))
  }

  lemma SnapshotsTell(leq: (string, string) -> bool, trace: seq<Event>, todos: Option<seq<NormalizedTodo>>)
    requires Comparable(leq, trace, todos)
    ensures LastCount(trace).Some? ==>
      (SnapshotProgress(StateAfter(leq, trace), DigestOf(leq, todos).snapshot) <==> FindsOther(trace, todos))
    ensures StateAfter(leq, trace).lastIncompleteCount == LastCount(trace)
    ensures StateAfter(leq, trace).stagnationCount == |StagnantChecks(trace)|
  {
    TraceIsReflected(leq, trace);
    if todos.Some? && LastTodos(trace).Some? {
      SnapshotsAreCanonical(leq, todos.value, LastTodos(trace).value);
    }
  }

  /** Every field of what a check reports: whether and how it finds progress, what it compares with, how many checks
      have stagnated including this one, and, on progress, whether three or more had stagnated before. */
  lemma ReportsExactly(leq: (string, string) -> bool, trace: seq<Event>, incomplete: int, todos: Option<seq<NormalizedTodo>>)
    requires Comparable(leq, trace, todos)
    ensures var r := Report(StateAfter(leq, trace), incomplete, DigestOf(leq, todos));
      && (r.hasProgressed <==> FindsFewer(trace, incomplete) || FindsOther(trace, todos))
      && (r.progressSource == Count <==> FindsFewer(trace, incomplete))
      && (r.progressSource == Snapshot <==> !FindsFewer(trace, incomplete) && FindsOther(trace, todos))
      && r.previousIncompleteCount == LastCount(trace)
      && r.recoveredFromStagnation == (if r.hasProgressed then Some(|StagnantChecks(trace)| >= 3) else None)
  {
    SnapshotsTell(leq, trace, todos);
  }

  lemma ReportCounts(leq: (string, string) -> bool, trace: seq<Event>, incomplete: int, todos: Option<seq<NormalizedTodo>>)
    requires Comparable(leq, trace, todos)
    ensures Report(StateAfter(leq, trace), incomplete, DigestOf(leq, todos)).stagnationCount
         == |StagnantChecks(trace + [Check(incomplete, todos)])|
  {
    var longer := trace + [Check(incomplete, todos)];
    assert longer[..|trace|] == trace && longer[|trace|] == Check(incomplete, todos);
    forall i | 0 <= i < |longer| && longer[i].Check? && longer[i].todos.Some? ensures !Clashes(longer[i].todos.value) {
      assert i < |trace| ==> longer[i] == trace[i];
    }
    StagnationIsCounted(leq, longer);
    assert After(leq, longer) == Step(leq, After(leq, trace), Check(incomplete, todos));
    SnapshotsTell(leq, trace, todos);
  }

  // ---------------------------------------------------------------- completed todos

  /** The completed todos among those checked last, as often as they occur. */
  ghost function CompletedPlaces(todos: seq<NormalizedTodo>): set<int> {
    set i | 0 <= i < |todos| && todos[i].status == "completed"
  }

  lemma {:induction false} CountsCompleted(todos: seq<NormalizedTodo>)
    ensures CountCompleted(todos) == |CompletedPlaces(todos)|
  {
    if todos == [] {
      assert CompletedPlaces(todos) == {};
    } else {
      var front, n := todos[..|todos| - 1], |todos| - 1;
      CountsCompleted(front);
      assert CompletedPlaces(todos) == CompletedPlaces(front) + (if todos[n].status == "completed" then {n} else {});
    }
  }

  /** The tracker keeps the number of completed todos of the last list that it was given. */
  lemma {:induction false} CompletedIsKept(leq: (string, string) -> bool, trace: seq<Event>)
    ensures StateAfter(leq, trace).countCompleted
         == if LastTodos(trace).Some? then Some(|CompletedPlaces(LastTodos(trace).value)|) else None
  {
    if trace != [] {
      var before, e := trace[..|trace| - 1], trace[|trace| - 1];
      CompletedIsKept(leq, before);
      if e.Check? && e.todos.Some? {
        CountsCompleted(e.todos.value);
      }
    }
  }

  // ---------------------------------------------------------------- the text of a snapshot

  /** By id, where a missing one counts as U+FFFF, then content, priority and status. */
  predicate ListedBefore(leq: (string, string) -> bool, a: NormalizedTodo, b: NormalizedTodo) {
    var x := if a.id.Some? then a.id.value else "\U{FFFF}";
    var y := if b.id.Some? then b.id.value else "\U{FFFF}";
    || (x != y && leq(x, y))
    || (x == y && a.content != b.content && leq(a.content, b.content))
    || (x == y && a.content == b.content && a.priority != b.priority && leq(a.priority, b.priority))
    || (x == y && a.content == b.content && a.priority == b.priority && leq(a.status, b.status))
  }

  /** A snapshot is the text of the todos, each as often as it occurs, in that order. */
  lemma SnapshotListsInOrder(leq: (string, string) -> bool, todos: seq<NormalizedTodo>) returns (listed: seq<NormalizedTodo>)
    requires TotalOrder(leq)
    ensures HashTodos(leq, todos) == JsonTodos(listed) && multiset(listed) == multiset(todos)
    ensures forall i, j :: 0 <= i < j < |listed| ==> ListedBefore(leq, listed[i], listed[j])
  {
    listed := Sort(ByFields(leq), todos);
    SortContents(ByFields(leq), todos);
    ByFieldsIsTotal(leq);
    SortIsStableSort(ByFields(leq), todos);
    forall i, j | 0 <= i < j < |listed| ensures ListedBefore(leq, listed[i], listed[j]) {
      assert ByFields(leq)(listed[i], listed[j]);
    }
  }

  function DigitValue(c: char): nat {
    if '0' <= c <= '9' then c as int - '0' as int
    else if 'a' <= c <= 'f' then c as int - 'a' as int + 10
    else 0
  }

  /** Reads the characters of a JSON string back, as section 7 of RFC 8259 has it. */
  function Unescape(s: string): string {
    if s == "" then ""
    else if s[0] != '\\' || |s| == 1 then [s[0]] + Unescape(s[1..])
    else if s[1] == 'b' then [8 as char] + Unescape(s[2..])
    else if s[1] == 't' then [9 as char] + Unescape(s[2..])
    else if s[1] == 'n' then [10 as char] + Unescape(s[2..])
    else if s[1] == 'f' then [12 as char] + Unescape(s[2..])
    else if s[1] == 'r' then [13 as char] + Unescape(s[2..])
    else if s[1] == 'u' && |s| >= 6 && s[2..4] == "00" then
      [(DigitValue(s[4]) * 16 + DigitValue(s[5])) as char] + Unescape(s[6..])
    else [s[1]] + Unescape(s[2..])
  }

  lemma UnescapesOne(c: char, rest: string)
    ensures Unescape(EscapeChar(c) + rest) == [c] + Unescape(rest)
  {
    var e := EscapeChar(c);
    assert (e + rest)[|e|..] == rest;
    if |e| == 6 {
      DigitsGiveBack(c as int);
      assert (e + rest)[2..4] == "00";
    }
  }

  lemma DigitsGiveBack(n: nat)
    requires n < 32
    ensures DigitValue(HexDigit(n / 16)) * 16 + DigitValue(HexDigit(n % 16)) == n
  {
  }

  /** Reading back what is written inside a JSON string gives the string. */
  lemma {:induction false} EscapingIsUndone(s: string)
    ensures Unescape(EscapeAll(s)) == s
  {
    if s != "" {
      UnescapesOne(s[0], EscapeAll(s[1..]));
      EscapingIsUndone(s[1..]);
      assert s == [s[0]] + s[1..];
    }
  }
}
